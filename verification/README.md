# Incremental typings synchroniser — a Dafny model

This project models the core of an incremental synchroniser for a generated
typings module, a `declare namespace API { type … }` file. When a service source
is regenerated, the synchroniser works out which typings that service needs. It
then rebuilds the persisted typings module: the stale aliases are replaced by
their latest versions and the rest are left alone. The model has five parts,
each one Dafny module, plus two support modules (`Wrappers` for `Option`, and
`Seqs` for sequence facts).

- **Entry-reference scanner** (`Scanner`, `getTypesFormController`). For each
  function of a service source it reads the right-hand identifier of every
  qualified type reference (`API.Foo` gives `Foo`). It looks at the parameters,
  directly or one array level down. It also looks at the return statement's call
  `f<API.Foo>(…)`, or failing that `f<API.Foo[]>(…)`. It drops absent and empty
  names and keeps each name at its first occurrence.
- **Dependency closure** (`Closure`, `getControllerTypesDep`). Starting from the
  entry references, it appends the property references of each newly collected
  name's type literal and expands those depth-first. These references are either
  direct or one array level down, and are kept as their full text, so `API.B`
  stays `API.B`. A name is expanded only when it first enters the accumulator.
  That rule stops cycles. Undeclared names are skipped silently.
- **Content differ** (`Differ`, `replaceExistStatements`). Candidates are matched
  to old aliases by name. A body is overwritten when the normalised bodies
  differ, and the changed candidates are reported in candidate order.
- **Ordered merger** (`Merger`, `mergeStatementBy`). Inserts new items into a copy
  of an old list wherever a caller-supplied predicate says so. Items no position
  takes are appended.
- **Live-set accumulation and module rebuild** (`Increment` and `Rebuild`,
  `collectDepends` and `genIncrementTypes`). The collected names form an
  order-preserving, duplicate-free union. The rebuilt module holds the old aliases
  outside the live set and the latest aliases inside it, sorted by name.

The parsed syntax tree is replaced by small datatypes in `Ast`:
- a reference name is `Qualified(left, right)` or `Identifier(id)`;
- a type annotation is a `Reference`, an `ArrayOf` another annotation, or
  `OtherType`;
- a type alias has a name, a body text (the structure's `type` string) and a body
  shape: a type literal with its members, or something else;
- a function has one annotation per parameter and its first return statement.

## Model

| member | source | states |
|---|---|---|
| Seqs.FirstIndex | src/ast/utils.ts:157-160 | `findIndex` by name: the position found holds the element, no earlier position does, and it is past the end exactly when the element is absent |
| Seqs.Dedup | src/ast/utils.ts:92 | `[...new Set(xs)]` is duplicate-free, holds exactly the elements of `xs`, and is no longer than `xs` |
| Seqs.DedupFirstOccurrence | src/ast/utils.ts:92 | the distinct elements come out in the order of their first occurrence in the input |
| Seqs.DedupAppend | src/ast/increment.ts:37 | deduplicating a duplicate-free list followed by more names is adding those names one at a time to the first list, as `Set.prototype.add` does |
| Seqs.AddAllAppendsNew | src/ast/increment.ts:37 | adding names to an insertion-ordered set keeps the set in front and appends the names not yet present, each once, in first-occurrence order |
| Ast.ReferenceIn | src/ast/utils.ts:59-63 | an annotation yields a reference exactly when it is a reference or an array of a reference, and then it yields that reference or the array's element reference; `Foo[][]` yields nothing |
| Scanner.TypeReferenceName | src/ast/utils.ts:37-50 | a reference yields a name exactly when it is qualified, and the name is its right-hand identifier; an unqualified or absent reference yields nothing |
| Scanner.FirstReference | src/ast/utils.ts:69-72 | nothing exactly when no type argument is a direct reference; otherwise the reference of an argument that is a direct reference and that no earlier argument precedes as one |
| Scanner.FirstArrayElement | src/ast/utils.ts:75-79 | nothing exactly when no type argument is an array type; otherwise the element of an array-type argument that no earlier argument precedes as one |
| Scanner.ReturnReference | src/ast/utils.ts:67-82 | a return that is not a call yields nothing; for a call, the first direct type-reference argument decides when there is one, and otherwise the element of the first array-type argument, when that element is a reference; whatever is yielded is a type argument or an array-type argument's element |
| Scanner.Present | src/ast/utils.ts:92 | `filter((x) => !!x)` keeps a name exactly when it is present and not empty, and is no longer than its input; the two rows below state its multiplicities and its order |
| Scanner.PresentCounts | src/ast/utils.ts:92 | the filter keeps each present, non-empty name as many times as it occurs, and never the empty name |
| Scanner.PresentFirstOccurrence | src/ast/utils.ts:92 | the filter keeps the order: of two kept names, the one first in the output is the one first in the input |
| Scanner.ControllerTypes | src/ast/utils.ts:36-93 | the entry references have no duplicates and no empty name, and a name is one exactly when some function yields it |
| Scanner.FunctionNames | src/ast/utils.ts:52-88 | a function contributes one name slot per parameter plus one for its return statement; slot `i` names `n` exactly when parameter `i` is annotated `API.n`, directly or one array level down, and the last slot names `n` exactly when the return statement yields `API.n` |
| Scanner.RawNamesMention | src/ast/utils.ts:52-90 | the flattened slots of all functions name `n` exactly when some function mentions `API.n` at a recognised position |
| Scanner.FunctionNamesMention | src/ast/utils.ts:52-88 | a function yields a name exactly when a parameter or its return statement refers to that name qualified |
| Scanner.ControllerTypesAreQualifiedMentions | src/ast/utils.ts:37-50 | a name is an entry reference exactly when it is non-empty and some function refers to `X.name` at a recognised position; unqualified references contribute nothing |
| Scanner.ControllerTypesFirstOccurrence | src/ast/utils.ts:88-92 | entry references appear in the order of their first positions among the name slots, parameters then return, function by function |
| Scanner.UnqualifiedParamIgnored | src/ast/utils.ts:45-49 | a parameter typed with a plain identifier yields no entry reference and no error |
| Scanner.NestedArrayIgnored | src/ast/utils.ts:59-63 | a parameter of type `API.Foo[][]` yields nothing, since only one array level is looked through |
| Scanner.FirstTypeArgumentOnly | src/ast/utils.ts:67-81 | a call whose direct type argument is unqualified yields nothing, and its later array-type argument is not tried |
| Scanner.ArrayReturnFollowed | src/ast/utils.ts:74-80 | a return of `f<API.Foo[]>(…)` yields the entry reference `Foo` |
| Closure.Lookup | src/ast/utils.ts:102 | `getTypeAlias(name)` finds the first alias with that name (no earlier alias has it), and finds none exactly when no alias has it |
| Closure.MemberRefsExactly | src/ast/utils.ts:105-116 | a text is among a type literal's references exactly when some property signature is annotated, directly or one array level down, with a reference of that text; other members contribute nothing |
| Closure.RefsOfExactly | src/ast/utils.ts:102-116 | a text is a reference of `name` exactly when the first alias called `name` exists, its type is a type literal, and one of its property signatures refers to that text |
| Closure.NotIn | src/ast/utils.ts:118 | the references kept are exactly those not already collected |
| Closure.Expand | src/ast/utils.ts:101-124 | expanding a name only appends, leaves every property reference of that name collected, and fully expands every name it appends |
| Closure.ExpandAll | src/ast/utils.ts:122 | expanding names in turn only appends, and leaves each of those names and every newly appended name fully expanded |
| Closure.ControllerTypesDep | src/ast/utils.ts:95-129 | the closure has no duplicates, contains every entry reference, and is closed under property references |
| Closure.ClosureComplete | src/ast/utils.ts:118-126 | every name reachable from an entry reference through property references is in the closure |
| Closure.ClosureSound | src/ast/utils.ts:100-122 | every name in the closure is reachable from an entry reference through property references |
| Closure.ClosureIsReachable | src/ast/utils.ts:95-129 | the closure holds exactly the names reachable from the entry references |
| Closure.CycleClosure | src/ast/utils.ts:118-122 | on the cycle A refers to B, B refers to `A[]`, with entry `API.A`, the computation terminates with exactly `[A, B]` |
| Closure.QualifiedPropertyNotFollowed | src/ast/utils.ts:102-113 | a property typed `API.B` is collected as the text `API.B`, which names no alias and is skipped silently, so the alias `B` and its reference `C` are not collected |
| Differ.StripMembers | src/ast/utils.ts:163-164 | stripping keeps exactly the characters outside the dropped set |
| Differ.ReplaceExistStatements | src/ast/utils.ts:149-174 | names are kept and only bodies change; only candidates are reported, and no more of them than there are candidates; with unique candidate names, the report is exactly the candidates whose normalised body differs from the first old alias of that name, in candidate order, and exactly those aliases take the candidate body |
| Differ.FormattingNotReported | src/ast/utils.ts:162-165 | bodies that agree once spaces, CR, LF, `;` and single quotes are dropped are not reported when the old body has no single quote |
| Differ.NormalisationGaps | src/ast/utils.ts:163-164 | the stripping is asymmetric and incomplete: a body holding a single quote differs from itself, and a tab counts as a change |
| Merger.MergeBy | src/ast/utils.ts:176-204 | the result is the recursive definition `MergeRef` of the two nested loops; it has length m+n and holds the old and new items with their multiplicities; the old items keep their order; the returned leftover is exactly the list of items still pending when the loops stop (`MergeState`), it ends the result in its original order, and each of its items was rejected at the last position; no new items gives `old`, no old items gives `new`, a predicate that never inserts gives `old ++ new`, and one that always inserts gives the new items reversed in front of a non-empty `old` |
| Merger.PlaceAt | src/ast/utils.ts:184-192 | one pass at position `i` equals the recursive definition `PlaceFrom`; something moves exactly when some pending item is accepted in front of the item at `i`; the items before `i` and the old items from `i` on stay where they were, with the moved items between; multiplicities, the old order and the pending order are kept; when nothing moves, every pending item was rejected at `i` |
| Merger.MergeLoop | src/ast/utils.ts:183-197 | the two loops end in exactly the list and pending items of the recursive definition `MergeState`, with the items and the old order kept, the pending items in their original order and rejected at the last position, and the list followed by the pending items equal to `MergeRef` |
| Merger.MergeRefAlwaysInserts | src/ast/utils.ts:183-192 | when the predicate accepts everything and the old list is not empty, every new item is placed at position 0, each in front of the one before, so the result is the new items reversed followed by the old ones |
| Rebuild.NameLeqTotal | src/ast/increment.ts:61 | the name order used by the sort is total |
| Rebuild.NameLeqTrans | src/ast/increment.ts:61 | the name order used by the sort is transitive |
| Rebuild.InsertByNameFacts | src/ast/increment.ts:61 | an insertion adds exactly the one alias and keeps a name-sorted list sorted |
| Rebuild.SortByNameFacts | src/ast/increment.ts:61 | the sort result is sorted by name and is a permutation of its input |
| Rebuild.FilterLiveFacts | src/ast/increment.ts:51-57 | filtering keeps exactly the aliases on the asked-for side of the live set, each exactly as often as it occurs in the input |
| Rebuild.RebuildModule | src/ast/increment.ts:51-61 | the rebuilt module is sorted by name; it is a permutation of the retained aliases plus the increment aliases; every old alias outside the live set and every latest alias inside it is present; nothing else is; its length is at most the sum of the inputs |
| Rebuild.RebuildNamesUnique | src/ast/increment.ts:51-61 | with unique names in the old and the latest module, the rebuilt module has unique names |
| Rebuild.RebuildNameSet | src/ast/increment.ts:51-61 | the rebuilt names are the old names outside the live set together with the latest names inside it |
| Rebuild.DemoRebuild | src/ast/increment.ts:102-161 | for the sample module with live set `{SuperMan}`, the result is ChangeWarehouseCmd, CreateCmd, DTO, SuperMan; SuperMan has its latest body and the others their old ones |
| Increment.CollectDepends | src/ast/increment.ts:29-38 | collecting keeps the typings, leaves the collected names duplicate-free and equal as a set to the old names plus the service's closure, and keeps the previously collected names as a prefix when they are duplicate-free |
| Increment.CollectAppendsNew | src/ast/increment.ts:37 | collecting appends exactly the closure names not yet collected, each once, in first-occurrence order |
| Increment.CollectIdempotent | src/ast/increment.ts:37 | collecting the same service a second time changes nothing |
| Increment.CollectCommutesAsSet | src/ast/increment.ts:37 | the set of names collected from two services does not depend on the order they are collected in |
| Increment.CollectAll | src/ast/increment.ts:14-38 | from a fresh generator, every closure name of every collected service ends up collected, each once |
| Increment.GenIncrementTypes | src/ast/increment.ts:51-61 | the module rebuilt with the collected names is sorted by name, keeps every old alias whose name was not collected, carries every latest alias whose name was, and holds nothing else |
| Increment.CollectedServiceIsCurrent | src/ast/increment.ts:35-61 | after collecting a service, the rebuilt module carries the latest alias of every type in the service's closure, keeps every old alias no collected name covers, and holds no other version of a type in the closure |

## Left out

- Syntax-tree and file handling. This covers project and source-file creation,
  temp paths, `addSourceFileAtPath`, `getStructure`/`set` and `saveSync`
  (src/ast/increment.ts:16-33, 44-47, 63-68). Parsed inputs are the `Ast`
  datatypes; writing the module back is the returned sequence.
- Rebuild.RebuildModule: the source overwrites the live set with the constant
  `['SuperMan']` right before the rebuild (src/ast/increment.ts:49). The model
  takes the live set as a parameter, and `Increment.GenIncrementTypes` passes the
  collected names.
- Rebuild.SortByName: `localeCompare` is locale-aware. The model sorts by plain
  character-code order. On the identifiers of the sample module the two orders
  agree. They differ on mixed case: character codes put `PageDTO` before
  `PageData` (`T` comes before `a`), while a locale comparison puts `PageData`
  first.
- `getTypesFromDeclare`, `resolveControllerNames` and `addBlankLineForNodes`
  (src/ast/utils.ts:16-34, 131-147) are thin tree walkers outside the core.
- The empty stub functions and the top-level sample run (src/ast/increment.ts:74-164).
  The sample typings appear only as the data of `Rebuild.DemoRebuild`. The old
  persisted module of that sample is not part of the source; `DemoOld` is an
  illustrative one, with shortened bodies. `DemoLatest` shortens the sample's
  bodies too: `AdjustOrderDTO`, for one, keeps one of its properties. Only the
  names and their order matter to the rebuild.
- A typings file without a namespace declaration makes `module.getTypeAlias`
  throw outside the `try` (src/ast/utils.ts:102). An old module without
  statements makes the `push` fail (src/ast/increment.ts:55-59). Both crashes
  are outside the model, which always has a module.
- Ast.TypeName: an unqualified reference with type arguments (`Foo<Bar>`) is an
  `Identifier` holding its whole text, as `getText()` gives it
  (src/ast/utils.ts:110). A qualified one (`API.Foo<Bar>`) is not modelled: a
  `Qualified(left, right)` cannot give both its text and its entry name `Foo`.
- Differ.ReplaceExistStatements: a candidate whose name no old alias has makes
  `findIndex` return -1, so reading `.type` at src/ast/utils.ts:163 throws a
  TypeError. Earlier candidates may already have overwritten old bodies in place
  by then. The model requires every candidate name to be an old name, and so
  models neither that crash nor the partial overwrite before it.
- Differ.ReplaceExistStatements: the exact result (`replaced` and the new bodies)
  is stated only when candidate names are unique. With repeated candidate names
  the source compares each later candidate against the body an earlier one
  wrote, and the model states only the shape facts for that case.
- Differ.Strip: the regular expressions are modelled as removing a character set.
  `[\r\n]` and `[\n]` together remove every CR and every LF.
- Merger.MergeBy: copying the inputs (`cloneDeep`) and leaving them unmodified
  hold trivially under value semantics. The predicate is a pure function; a
  predicate with side effects is outside the model.
- Rebuild.RebuildModule: a live name with no latest alias is silently absent
  from the rebuilt module (src/ast/increment.ts:51-53); no error is raised.
- Differ.Differs: the single quote is dropped only from the candidate body
  (src/ast/utils.ts:163-164).
