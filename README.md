# pyinline, modelled in Dafny

pyinline is a source-to-source pass for Python. A function decorated with `@inline`
is an inline function. The pass rewrites a module as follows:

- It replaces each call to an inline function by that function's body.
- It binds the call's positional arguments to the function's parameters by name
  substitution.
- It deletes the inline definitions and the `from pyinline import inline` statement.

The pass is one depth-first walk of a libcst tree by `InlineTransformer`. The repository
also holds an earlier prototype, `inline.py`. It only walks the tree and collects the
inline definitions.

The model has six modules:

- `Syntax` (syntax.dfy) is the part of the syntax tree the pass reads:
  - expressions: names, literals, attributes, subscripts, calls, and other expressions
    given by their sub-expressions;
  - call arguments;
  - small statements: expression statements, assignments, returns, `from ... import ...`
    and others;
  - statement lines, function definitions and compound blocks;
  - the dotted name that libcst's `get_full_name_for_node` computes (`FullName`).

  A function definition's node identity is a stable `id`. An expansion placed where a
  call was is the expression `Inlined`.
- `Substitution` (substitution.dfy) models the `leave_Name` of `NameToConstantTransformer`
  and of `NameToNameTransformer`, and the walk that applies them to a suite. Its lemmas
  characterize exactly which names occur after a substitution.
- `Expansion` (expansion.dfy) is what replaces a matched call:
  - the one-statement shortcut;
  - otherwise, the flattened suite of small statements;
  - argument binding, one pass per argument, each pass applied to the previous pass's
    result;
  - the failures: a body that cannot be flattened, or more arguments than positional
    parameters.
- `Markers` (markers.dfy) holds the decisions:
  - which definitions are inline (their decorators' full names);
  - which definitions `leave_FunctionDef` removes;
  - which import `leave_ImportFrom` removes, both as written and corrected (see Findings).
- `Transformer` (transformer.dfy) is the class `InlineTransformer`. Its fields
  `inlineFunctions` (the registry) and `stack` are updated by:
  - `VisitFunctionDef` and `VisitCall`;
  - the walk methods, which follow libcst's order: visit, children, leave.

  `LeaveCall` binds the arguments in a loop. It is proved equal to `Expansion.Expand`.
  The module also states the whole rewrite as functions (`RewriteExpr` up to
  `RewriteStmts`). They take the registry in force when the walk reaches a node. Each
  walk method is proved to return exactly what its rewrite function gives. The lemmas
  about the rewrite functions say three things:
  - what the output lacks: matching calls, inline definitions, the marker import;
  - which definitions are removed;
  - that a tree with nothing to rewrite comes back unchanged.
- `Prototype` (prototype.dfy) is the class `InlineVisitor` of `inline.py`. It is
  compared with the transformer's test for an inline definition.

## Model

| member | source | states |
|---|---|---|
| Substitution.LeaveName | pyinline/__init__.py:24-42 | a Name equal to the parameter becomes the bound constant or expression; any other Name is returned as it was |
| Substitution.SubstExpr | pyinline/__init__.py:137 | `suite.visit(transformer)` on an expression: a Name becomes the bound node or stays; every other node keeps its kind and number of children, so attribute names and keyword names are visited too |
| Substitution.SubstSmall | pyinline/__init__.py:137 | a small statement keeps its kind, its number of targets, whether it returns a value, and the shape of an import, whose module and imported names are visited too |
| Substitution.SubstSmalls | pyinline/__init__.py:137-144 | the visited suite has the same length as before and each small statement keeps its kind |
| Substitution.SubstExprMentions | pyinline/__init__.py:24-29 | after substituting x in an expression, a name y occurs iff it occurred and is not x, or x occurred and the inserted node holds y |
| Substitution.SubstSmallsMentions | pyinline/__init__.py:134-144 | the same characterization for a whole suite visited by either transformer |
| Substitution.SubstSmallsUnchanged | pyinline/__init__.py:37-42 | a suite that does not mention the parameter comes back unchanged |
| Expansion.BindingFor | pyinline/__init__.py:129-144 | string, integer and float literal arguments bind as constants and every other argument binds as an expression; the bound name is parameter i |
| Expansion.Flatten | pyinline/__init__.py:117-122 | flattening succeeds exactly for an indented body of simple statement lines; otherwise it fails |
| Expansion.ConcatAppend | pyinline/__init__.py:118-120 | the flattened suite is the in-order concatenation of the lines' small statements |
| Expansion.Bound | pyinline/__init__.py:127-145 | binding keeps the number of small statements and the kind of each; which names occur afterwards is stated by the binding lemmas below |
| Expansion.Expand | pyinline/__init__.py:109-147 | the result is the single body statement exactly when the shortcut applies; a suite is produced only when there are no more arguments than parameters; the only failures are an unsupported body and too many arguments |
| Expansion.ExpandFailure | pyinline/__init__.py:109-147 | an expansion fails iff the shortcut does not apply and either the body cannot be flattened or there are more arguments than parameters |
| Expansion.ExpandShortcut | pyinline/__init__.py:109-114 | a zero-argument call to a one-statement indented body gives that statement verbatim, even a compound one |
| Expansion.ExpandWithoutArguments | pyinline/__init__.py:117-125 | without arguments the suite is the flattened body, with no substitution |
| Expansion.BoundMentions | pyinline/__init__.py:127-145 | with distinct parameters and arguments that do not mention parameters, binding is a simultaneous substitution: exactly which names occur afterwards |
| Expansion.BoundEliminates | pyinline/__init__.py:127-145 | every bound parameter is gone from the suite when no argument mentions a parameter |
| Expansion.UnboundParameterKept | pyinline/__init__.py:127-145 | with distinct parameter names, a parameter past the bound ones keeps exactly its occurrences when none of the bound arguments mentions it |
| Expansion.BoundUntouched | pyinline/__init__.py:127-145 | a suite that mentions none of the bound parameters is unchanged by binding |
| Expansion.LiteralArgument | pyinline/__init__.py:129-138 | `f(x): return x + 1` called as `f(3)` expands to `return 3 + 1` |
| Expansion.LaterPassRewritesEarlierArgument | pyinline/__init__.py:137-144 | the passes are sequential: `f(a, b): g(a, b)` called as `f(b, 1)` expands to `g(1, 1)` |
| Markers.IsInline | pyinline/__init__.py:52-56 | a definition decorated with the bare name `inline` is an inline function |
| Markers.InlineOnly | pyinline/__init__.py:51-58 | what the registry gains from meeting some definitions: never more than were met, its first entry is inline, and an inline first definition is registered first |
| Markers.InlineOnlyMembers | pyinline/__init__.py:51-58 | the definitions registered from a walk are exactly the met definitions with a decorator whose full name is `inline` |
| Markers.InlineOnlyAppend | pyinline/__init__.py:58 | registration follows visit order: definitions met later are appended after earlier ones |
| Markers.RemovedIffInline | pyinline/__init__.py:61-68 | with distinct node identities, a met definition is removed iff it is an inline function |
| Markers.LeaveImportFromAsWritten | pyinline/__init__.py:77-82 | the written decision fails exactly on an import without a module, fails on names only for an import from `pyinline`, and removes only an import from `pyinline` whose first name is `inline` |
| Markers.LeaveImportFrom | pyinline/__init__.py:77-82 | the corrected decision fails only on a star import from `pyinline`, and agrees with the written code whenever the import has a module |
| Markers.MarkerImportIff | pyinline/__init__.py:77-82 | an import is removed iff its module is the name `pyinline` and its first imported name is `inline` |
| Markers.MarkerImportFirstNameOnly | pyinline/__init__.py:79 | names after a first `inline` go with the statement; an `inline` that is not first leaves it in place |
| Markers.DottedModuleKept | pyinline/__init__.py:78 | an import from a dotted module is never removed |
| Markers.RelativeImportFailsAsWritten | pyinline/__init__.py:78 | `from . import helpers` makes the written decision fail; the corrected one keeps the import |
| Transformer.Matches | pyinline/__init__.py:98-102 | the matches are registered definitions whose name is the call's full name; a call without a full name matches nothing |
| Transformer.FirstMatch | pyinline/__init__.py:98-106 | a call matches nothing iff no registered definition has its full name; otherwise the definition used is the first registered one with that name |
| Transformer.Replacement | pyinline/__init__.py:106-147 | a matched call becomes an inlined fragment, and fails exactly when the expansion of its first match fails |
| Transformer.RewriteExpr | pyinline/__init__.py:84-104 | only a call can come out of the walk of an expression as a new inlined fragment |
| Transformer.RewriteStmts | pyinline/__init__.py:45-147 | the walk of a statement list never adds statements at its level |
| Transformer.RewriteExprs | pyinline/__init__.py:84-104 | the walk of an expression list keeps its length |
| Transformer.RewriteArg | pyinline/__init__.py:84-104 | the walk of an argument keeps it positional or keyword |
| Transformer.RewriteArgs | pyinline/__init__.py:84-104 | the walk of an argument list keeps its length |
| Transformer.RewriteSmalls | pyinline/__init__.py:70-82 | the walk of a line's small statements never adds one |
| Transformer.RewriteSmall | pyinline/__init__.py:70-82 | a small statement is removed exactly when it is the marker import |
| Transformer.RewriteStmt | pyinline/__init__.py:61-82 | only a definition or an emptied statement line disappears; a kept statement keeps its kind, and a kept definition its identity |
| Transformer.RewriteDef | pyinline/__init__.py:51-68 | an inline definition is always removed; a kept one keeps its identity, name and parameters |
| Transformer.RewriteBody | pyinline/__init__.py:51-68 | the walk of a definition's body keeps it an indented block or a one-line suite |
| Transformer.EmptiedLine | pyinline/__init__.py:77-82 | a statement line is emptied only when each of its small statements is the marker import |
| Transformer.RewriteExprResolved | pyinline/__init__.py:84-104 | outside expansions, no call left in a walked expression matches the registry in force when it was walked; the expression keeps or loses its full name |
| Transformer.RewriteStmtsClean | pyinline/__init__.py:61-82 | outside expansions, the walked statements hold no inline definition and no marker import |
| Transformer.RemovedAtLeave | pyinline/__init__.py:61-68 | a definition is removed iff it is inline, or a definition with its identity was registered before it or inside its body |
| Transformer.RewriteExprIdentity | pyinline/__init__.py:84-104 | an expression with no call that matches the registry comes back unchanged |
| Transformer.RewriteStmtsIdentity | pyinline/__init__.py:51-104 | statements with no inline or registered definition, no matching call and no import the walk removes or fails on come back unchanged and register nothing |
| Transformer.InlineTransformer.constructor | pyinline/__init__.py:46-49 | both the registry and the stack start empty |
| Transformer.InlineTransformer.VisitFunctionDef | pyinline/__init__.py:51-59 | the registry gains the definition exactly when it is inline, at the end; nothing else changes |
| Transformer.InlineTransformer.LeaveFunctionDef | pyinline/__init__.py:61-68 | a definition in the registry is removed |
| Transformer.InlineTransformer.VisitCall | pyinline/__init__.py:84-93 | the children are walked iff nothing matches; otherwise the first match's name is pushed onto the stack |
| Transformer.InlineTransformer.LeaveCall | pyinline/__init__.py:95-147 | an unmatched call comes back as updated; a matched one becomes the expansion of the first match with the original, unwalked arguments, or the failure of that expansion |
| Transformer.InlineTransformer.WalkExpr | pyinline/__init__.py:84-104 | the walk of an expression returns exactly its rewrite: a matched call is replaced without walking its children, anything else is rebuilt from its walked children |
| Transformer.InlineTransformer.WalkExprs | pyinline/__init__.py:84-104 | the walk of an expression list returns exactly its rewrite, element by element, left to right |
| Transformer.InlineTransformer.WalkArgs | pyinline/__init__.py:84-104 | the walk of an argument list returns exactly its rewrite, left to right |
| Transformer.InlineTransformer.WalkArg | pyinline/__init__.py:84-104 | the walk of an argument returns exactly its rewrite, the keyword name being walked too |
| Transformer.InlineTransformer.WalkSmall | pyinline/__init__.py:70-82 | the walk of a small statement returns exactly its rewrite: an import is dropped, kept or fails by the corrected `leave_ImportFrom` |
| Transformer.InlineTransformer.WalkSmalls | pyinline/__init__.py:70-82 | the walk of a line's small statements returns exactly its rewrite, dropping each marker import |
| Transformer.InlineTransformer.WalkStmt | pyinline/__init__.py:51-82 | the walk of a statement returns exactly its rewrite, so a statement line emptied by removing the marker import disappears, as libcst drops it |
| Transformer.InlineTransformer.WalkBody | pyinline/__init__.py:51-68 | the walk of a definition's body returns exactly its rewrite; the registry grows by the inline definitions in it |
| Transformer.InlineTransformer.WalkFunctionDef | pyinline/__init__.py:51-68 | the walk of a definition returns exactly its rewrite; the registry grows by the definition if inline, then by the inline definitions of its body |
| Transformer.InlineTransformer.WalkStmts | pyinline/__init__.py:51-68 | the walk of a statement list returns exactly its rewrite, each statement seeing the registrations of those before it; the registry grows by the inline definitions met, in visit order |
| Transformer.InlineTransformer.Transform | pyinline/__init__.py:45-147 | a whole module: the rewritten module or the first failure, and the registry as for a statement list; the walk uses the corrected `leave_ImportFrom`, so `from . import x` is kept where the program raises (see Findings) |
| Prototype.DecoratorValueIsInline | inline.py:20 | true only for the name `inline` or a literal with that text; calls and other expressions have no value and fail |
| Prototype.AnyValueInline | inline.py:19-21 | the only failure is a decorator without a value |
| Prototype.AnyValueInlineFalse | inline.py:19-21 | `any` is false exactly when every decorator's value is read and none is `inline` |
| Prototype.ValueCheck | inline.py:18-21 | a definition without decorators is never recorded; the only failure is a decorator without a value |
| Prototype.InlineVisitor.constructor | inline.py:13-15 | the list starts empty |
| Prototype.InlineVisitor.VisitFunctionDef | inline.py:17-24 | the result is the short-circuiting `any` over the decorators' values; the definition is appended iff it is true; a failure changes nothing |
| Prototype.InlineVisitor.WalkStmts | inline.py:12-24 | a statement list comes back unchanged; the list grows by the definitions Discovery records, in visit order, or the walk fails with the first failing decorator check |
| Prototype.InlineVisitor.WalkStmt | inline.py:12-24 | one statement comes back unchanged; a definition is checked before the definitions in its body |
| Prototype.InlineVisitor.Visit | inline.py:12-24 | the module comes back unchanged; the list grows by the discovered definitions in visit order; otherwise it fails with the first failing decorator check |
| Prototype.Discovery | inline.py:17-23 | the prototype's list from the definitions met: never longer than what was met; membership is stated by DiscoveryRecordsFromInput |
| Prototype.DiscoveryAppend | inline.py:23 | discovery over consecutive definitions concatenates in order; the first failure wins |
| Prototype.DiscoveryRecordsFromInput | inline.py:18-23 | a definition is recorded iff it was met and has a decorator whose value is `inline` |
| Prototype.DiscoveryFailure | inline.py:19-21 | the walk fails iff some definition's decorator check fails |
| Prototype.PlainDecoratorsAgree | inline.py:20 | for name and dotted-name decorators, the value test and the transformer's full-name test agree, so `@pyinline.inline` is recorded by neither |
| Prototype.RecordedIsInline | inline.py:20 | without literal decorators, a definition the prototype records is one the transformer registers |
| Prototype.DiscoveryAgrees | inline.py:17-23 | over definitions with plain decorators the prototype records exactly what the transformer registers |
| Prototype.CalledAndSubscriptedMarker | inline.py:20 | `@inline()` and `@inline[x]` mark a definition for the transformer; the prototype fails on the first and skips the second |

## Left out

- Parsing and printing are not modelled: libcst's tree is an abstract datatype.
  `deep_equals` compares whitespace and parentheses; the model compares names only.
- libcst's validation of where a statement or suite may stand is not modelled. The
  model records an expansion as `Inlined` in place of the call.
- `get_full_name_for_node` is not modelled on the attribute of an expression without a
  full name, where libcst yields `None.attr`. In the model the missing name propagates.
- Parameters are positional names only. Defaults, `*args`, keyword-only and
  positional-only parameters are not modelled, and neither are starred arguments or an
  import's `as` names.
- The `log.debug` call (pyinline/__init__.py:107) is logging only. It is left out.
- The `inline` decorator stubs (pyinline/__init__.py:10-12, inline.py:7-9) are left out:
  they have no behaviour.
- The command line is left out. pyinline/__main__.py is not part of this model, and
  neither is the `__main__` block of inline.py: argument parsing, file I/O and diff
  printing.
- Prototype.DecoratorValueIsInline: every expression kind outside names, literals,
  attributes, subscripts and calls fails on reading its value. In libcst a few of them,
  such as a named expression, do have a `value`.
- Expansion.BoundMentions: it is stated only when no argument mentions a parameter. Where
  one does, later passes rewrite names that earlier arguments brought in. That behaviour
  is kept as written and shown by Expansion.LaterPassRewritesEarlierArgument.
- The model has no hygiene renaming of the inlined body's local names, no recursion
  detection and no wrapping of compound statements, because the code has none of them.
- `from pyinline import *` fails at `names[0]` in the written code. The intended outcome
  is not evident, so the model keeps the failure (`NoImportedName`).

## Findings

| source | as written | input that shows it | evidently intended | confidence | as-written member | corrected member |
|---|---|---|---|---|---|---|
| pyinline/__init__.py:78 | `original_node.module.value` is read for every `from ... import ...` | `from . import helpers`, whose module is `None`, raises AttributeError | a relative import without a module is not the marker import and is kept | not executed | Markers.RelativeImportFailsAsWritten | Markers.LeaveImportFrom |
