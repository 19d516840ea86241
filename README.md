# HISE core pieces in Dafny

This project models four pieces of HISE.

- **The SNEX compiler's symbol table** (`NamespaceHandler`). It keeps a flat registry of namespace records. Each record has a qualified id, a parent, children, aliases (symbols) and imported ("used") namespaces. Two cursors mark where the compiler currently is. The table also lists template classes and functions and the complex types that were registered structurally.
  - `namespaces.dfy` holds the records and the read-only queries over a registry, written as functions. It also holds the resolution algorithm as a function, with its properties.
  - `templates.dfy` holds the template lists and the complex-type registry as values.
  - `handler.dfy` holds the class `NamespaceHandler`. Its fields are the registry, the cursors and the lists, and its methods change them in place. The loops of `resolve`, `get`, the alias searches and the template searches are methods proved equal to the functions.
- **The SNEX pass driver** (`BaseCompiler::executePass`, `executeOptimization`), in `compiler.dfy`. The calls the driver makes into code it cannot see are recorded as a trace of events:
  - `reset()` on a pass;
  - `process()` on a statement;
  - logging a message on a statement;
  - an optimisation pass's `processStatementInternal()` on a statement.
  A statement's `process()` and a pass's `processStatementInternal()` are function parameters. Each call completes, signals dead code at a line, or fails. The dead-code exception is a result value.
- **The markdown parser's character cursor and search helpers**, in `markdown.dfy`. This covers `MarkdownParser::Iterator` as a class over the text with a position, the `Helpers` character classes, `Element::getMatchRanges` and `getCurrentText`.
- **The channel-pair naming and buffer-size logic of the settings window**, in `settings.dfy`. This covers `getNameForChannelPair`, `getChannelPairs` and the buffer-size list built in `rebuildMenus`. These are methods with the source's loops, proved against functions.

`common.dfy` holds the shared helpers:
- `Option`, `Status` (ok or a failure message) and `Result`;
- ASCII whitespace, digits, case folding and trimming;
- decimal printing and character counting.

## Model

| member | source | states |
|---|---|---|
| Namespaces.Parent | hi_snex/snex_jit/snex_jit_NamespaceHandler.cpp:357 | the enclosing id is the id with its last segment dropped |
| Namespaces.ChildId | hi_snex/snex_jit/snex_jit_NamespaceHandler.cpp:255 | a child id has the parent as its parent and the given name as its last segment |
| Namespaces.Relocate | hi_snex/snex_jit/snex_jit_NamespaceHandler.cpp:364 | re-rooting gives the new parent's path followed by the whole id's path, and nothing else |
| Namespaces.FindAlias | hi_snex/snex_jit/snex_jit_NamespaceHandler.cpp:39-51 | returns the first alias with this id whose kind is accepted, or None when there is none |
| Namespaces.Contains | hi_snex/snex_jit/snex_jit_NamespaceHandler.cpp:39-51 | (definition) a namespace contains a symbol when the symbol's parent is the namespace's id and some alias there has the symbol's id |
| Namespaces.IsConstantSymbol | hi_snex/snex_jit/snex_jit_NamespaceHandler.cpp:449-452 | (definition) template constants, preprocessor constants, constants and enum values are the constant kinds |
| Namespaces.AddAlias | hi_snex/snex_jit/snex_jit_NamespaceHandler.cpp:98-107 | afterwards the namespace contains the id; an id already contained leaves the namespace unchanged; otherwise exactly one alias is appended, carrying the namespace's internal flag |
| Namespaces.AddAliasIdempotent | hi_snex/snex_jit/snex_jit_NamespaceHandler.cpp:98-107 | adding a symbol twice is the same as adding it once, and adds at most one alias |
| Namespaces.Get | hi_snex/snex_jit/snex_jit_NamespaceHandler.cpp:754-763 | returns the index of the first namespace with this id, or None when no namespace has it |
| Namespaces.GetUnique | hi_snex/snex_jit/snex_jit_NamespaceHandler.cpp:754-763 | in a well-formed registry, get() finds every namespace under its own id |
| Namespaces.RootAbove | hi_snex/snex_jit/snex_jit_NamespaceHandler.cpp:748-749 | walking up the parent links ends at a namespace without a parent |
| Namespaces.GetRoot | hi_snex/snex_jit/snex_jit_NamespaceHandler.cpp:741-752 | there is no root exactly when the registry is empty; otherwise it is the first record, whose id is the root id |
| Namespaces.LookupAlias | hi_snex/snex_jit/snex_jit_NamespaceHandler.cpp:575-587 | a found alias has the id and an accepted kind and sits in the parent namespace; when the parent exists and nothing is found, no alias there has the id with an accepted kind |
| Namespaces.LookupAliasFirst | hi_snex/snex_jit/snex_jit_NamespaceHandler.cpp:575-587 | in a well-formed registry, when the alias at position i of the parent namespace is the first one with the id and an accepted kind, the lookup returns exactly that alias |
| Namespaces.LookupAliasNone | hi_snex/snex_jit/snex_jit_NamespaceHandler.cpp:575-587 | the lookup finds nothing exactly when no namespace with the parent's id holds an alias with the id and an accepted kind |
| Namespaces.SymbolTypeOf | hi_snex/snex_jit/snex_jit_NamespaceHandler.cpp:575-587 | a known symbol type implies the symbol is declared in its parent namespace; the full reading is stated by SymbolTypeReadsFirstAlias |
| Namespaces.SymbolTypeReadsFirstAlias | hi_snex/snex_jit/snex_jit_NamespaceHandler.cpp:575-587 | getSymbolType() returns the kind of the first alias with the id in the parent namespace, and Unknown for an undeclared id |
| Namespaces.ConstantValueOf | hi_snex/snex_jit/snex_jit_NamespaceHandler.cpp:599-613 | a non-empty value is the stored value of a constant alias with that id in the parent namespace; the full reading is stated by ConstantValueReadsFirstAlias |
| Namespaces.ConstantValueReadsFirstAlias | hi_snex/snex_jit/snex_jit_NamespaceHandler.cpp:599-613 | getConstantValue() returns the value of the first alias with the id whose kind is a constant kind, and the empty value when there is none |
| Namespaces.TypeInfoOf | hi_snex/snex_jit/snex_jit_NamespaceHandler.cpp:725-739 | a non-default type is the type of an alias with that id whose kind is one of those asked for; the full reading is stated by TypeInfoReadsFirstAlias |
| Namespaces.TypeInfoReadsFirstAlias | hi_snex/snex_jit/snex_jit_NamespaceHandler.cpp:725-739 | getTypeInfo() returns the type of the first alias with the id whose kind is one of those asked for, and the default type when there is none |
| Namespaces.IsStaticFunctionClassExactly | hi_snex/snex_jit/snex_jit_NamespaceHandler.cpp:615-629 | an id is a static function class exactly when its parent holds an alias for it with that kind |
| Namespaces.IsStaticFunctionClassId | hi_snex/snex_jit/snex_jit_NamespaceHandler.cpp:615-629 | (definition) the namespace with the id's parent holds an alias with the id whose kind is StaticFunctionClass; its properties are stated by IsStaticFunctionClassExactly |
| Namespaces.ClassEnumValueIsEnumValue | hi_snex/snex_jit/snex_jit_NamespaceHandler.cpp:631-648 | an id is a class enum value exactly when its symbol type is EnumValue and its enum-value type is const; such an id is declared |
| Namespaces.IsClassEnumValue | hi_snex/snex_jit/snex_jit_NamespaceHandler.cpp:631-648 | (definition) the first alias with the id in the parent namespace is an EnumValue whose type is const; its properties are stated by ClassEnumValueIsEnumValue |
| Namespaces.RootHasNamespaceForUndeclared | hi_snex/snex_jit/snex_jit_NamespaceHandler.cpp:567-573 | an undeclared id counts as present (the Unknown case of the expression as C++ groups it) |
| Namespaces.RootHasNamespaceForDeclared | hi_snex/snex_jit/snex_jit_NamespaceHandler.cpp:567-573 | an id whose symbol type is not Unknown counts only when it is a Struct and a namespace of that id exists |
| Namespaces.RootHasNamespace | hi_snex/snex_jit/snex_jit_NamespaceHandler.cpp:567-573 | (definition) an undeclared id, or a struct with a registered namespace; its properties are stated by the two lemmas above |
| Namespaces.Ancestors | hi_snex/snex_jit/snex_jit_NamespaceHandler.cpp:341-354 | the chain of enclosing namespaces from a start namespace outward holds only valid indices |
| Namespaces.EnclosingLookup | hi_snex/snex_jit/snex_jit_NamespaceHandler.cpp:339-355 | a found id is declared and keeps the name looked up |
| Namespaces.EnclosingLookupFollowsChain | hi_snex/snex_jit/snex_jit_NamespaceHandler.cpp:341-354 | the parent-link walk equals a search along the explicit ancestor chain |
| Namespaces.ChainLookupFirstHolder | hi_snex/snex_jit/snex_jit_NamespaceHandler.cpp:343-354 | the chain search fails exactly when no namespace on it holds the name; otherwise it returns the first holder's member |
| Namespaces.EnclosingLookupInnermost | hi_snex/snex_jit/snex_jit_NamespaceHandler.cpp:339-355 | enclosing lookup picks the innermost ancestor that holds the name, and fails exactly when none does |
| Namespaces.UsedMatches | hi_snex/snex_jit/snex_jit_NamespaceHandler.cpp:377-383 | each match from the used namespaces is declared and has the name; there is at most one per used namespace |
| Namespaces.UsedMatchesCountsHolders | hi_snex/snex_jit/snex_jit_NamespaceHandler.cpp:377-383 | two used namespaces holding the name give at least two matches |
| Namespaces.UsedMatchesHasHolder | hi_snex/snex_jit/snex_jit_NamespaceHandler.cpp:377-383 | a used namespace holding the name gives at least one match |
| Namespaces.UsedMatchesNone | hi_snex/snex_jit/snex_jit_NamespaceHandler.cpp:377-383 | the used namespaces give no match exactly when none of them holds the name |
| Namespaces.UsedMatchesSingle | hi_snex/snex_jit/snex_jit_NamespaceHandler.cpp:377-383 | when exactly one used namespace holds the name, its member is the only match |
| Namespaces.MatchesUnder | hi_snex/snex_jit/snex_jit_NamespaceHandler.cpp:369-385 | the candidates are declared symbols; a member of the parent itself is the only candidate, whatever its imports hold; there is none exactly when neither the parent nor any namespace it uses holds the name |
| Namespaces.LookupParent | hi_snex/snex_jit/snex_jit_NamespaceHandler.cpp:357-367 | a stated parent that exists is the one found; only when it does not exist is its form re-rooted under the current namespace looked up, and that one is found exactly when it exists |
| Namespaces.Resolve | hi_snex/snex_jit/snex_jit_NamespaceHandler.cpp:323-397 | (definition) the resolution algorithm as a function; its properties are stated by the Resolve lemmas below |
| Namespaces.ResolvedIsDeclared | hi_snex/snex_jit/snex_jit_NamespaceHandler.cpp:323-397 | a successful resolve yields a declared id, or the unchanged id when zero matches are allowed; a failed one leaves the id unchanged |
| Namespaces.ResolveFailures | hi_snex/snex_jit/snex_jit_NamespaceHandler.cpp:323-397 | the only failures are "no namespace available", "<name> can't be resolved" (when zero matches are not allowed) and "<name> is ambiguous"; an id the current namespace contains is returned as it is |
| Namespaces.ResolveShadowing | hi_snex/snex_jit/snex_jit_NamespaceHandler.cpp:337-355 | a non-explicit id not in the current namespace resolves to the innermost enclosing namespace that holds its name |
| Namespaces.AmbiguousImports | hi_snex/snex_jit/snex_jit_NamespaceHandler.cpp:369-391 | when the parent does not hold the name but two of its used namespaces do, resolve fails with "<name> is ambiguous" |
| Namespaces.ResolveRelative | hi_snex/snex_jit/snex_jit_NamespaceHandler.cpp:360-374 | a stated parent that is not found as given is looked up re-rooted under the current namespace, and a member there resolves |
| Namespaces.ResolveNoCursor | hi_snex/snex_jit/snex_jit_NamespaceHandler.cpp:325-326 | without a current namespace resolve fails with "no namespace available" and leaves the id as it was |
| Namespaces.ResolveUnresolved | hi_snex/snex_jit/snex_jit_NamespaceHandler.cpp:337-395 | when no enclosing namespace, nor the parent found, nor any namespace it uses holds the name, resolve fails with "<name> can't be resolved"; with zero matches allowed it succeeds with the id unchanged |
| Namespaces.ResolveDirectMemberWins | hi_snex/snex_jit/snex_jit_NamespaceHandler.cpp:369-395 | when the parent found holds the name itself, the id is rewritten to that member, even if namespaces it uses hold the name too |
| Namespaces.ResolveSingleImport | hi_snex/snex_jit/snex_jit_NamespaceHandler.cpp:369-395 | when the parent found lacks the name and exactly one namespace it uses holds it, the id is rewritten to that member |
| Templates.FindTemplate | hi_snex/snex_jit/snex_jit_NamespaceHandler.cpp:708-716 | returns the first template with this id, or None when no template has it |
| Templates.InheritAll | hi_snex/snex_jit/snex_jit_NamespaceHandler.cpp:657-667 | every registered template keeps its id, and each one s is a parent of gets s's arguments in front of its own |
| Templates.FindTemplateAt | hi_snex/snex_jit/snex_jit_NamespaceHandler.cpp:708-716 | the first template with the id is the one found |
| Templates.RegisterTemplateClass | hi_snex/snex_jit/snex_jit_NamespaceHandler.cpp:650-684 | after addTemplateClass the class is listed; the list is the inherited list, with s appended only when its id was not yet listed |
| Templates.RegisterTemplateFunction | hi_snex/snex_jit/snex_jit_NamespaceHandler.cpp:686-706 | after addTemplateFunction the function is listed, and it is appended only when its id was not yet listed |
| Templates.RegisterTemplateClassKeepsOrder | hi_snex/snex_jit/snex_jit_NamespaceHandler.cpp:657-683 | registration keeps every old entry in place (with inherited arguments) and adds at most s at the end |
| Templates.OuterArgumentsPrecedeNested | hi_snex/snex_jit/snex_jit_NamespaceHandler.cpp:657-667 | registering an inner template and then its outer class gives the inner one the outer arguments followed by its own |
| Templates.NestedAfterOuterKeepsOwnArguments | hi_snex/snex_jit/snex_jit_NamespaceHandler.cpp:657-667 | registering the outer class first leaves a later inner template with only its own arguments |
| Templates.GetTemplateObject | hi_snex/snex_jit/snex_jit_NamespaceHandler.cpp:708-723 | a found template has the id and comes from one of the two lists; the first class template with the id wins, and when no class has the id the first function template with it is returned; nothing is found only when neither list has the id |
| Templates.FirstMatch | hi_snex/snex_jit/snex_jit_NamespaceHandler.cpp:140-144 | returns the first registered type that structurally matches, or None when none does |
| Templates.RegisterType | hi_snex/snex_jit/snex_jit_NamespaceHandler.cpp:135-153 | a null type gives null; a type some registered type matches gets the first such entry and the list is unchanged; the list gains the type, as its last entry, exactly when the type is not null and no registered type matches it |
| Templates.RegisterTypeKeepsOnePerMatch | hi_snex/snex_jit/snex_jit_NamespaceHandler.cpp:135-153 | no type in the list matches a type registered after it, and registration keeps this |
| Templates.RegisterTypeTwiceSameEntry | hi_snex/snex_jit/snex_jit_NamespaceHandler.cpp:135-153 | registering a type that matches an already registered one changes nothing and returns the same entry |
| Handler.AddChild | hi_snex/snex_jit/snex_jit_NamespaceHandler.cpp:255-271 | a new namespace is appended under the current one with the child id, parent link and internal flag, and listed among the parent's children; nothing else changes |
| Handler.AddChildWellFormed | hi_snex/snex_jit/snex_jit_NamespaceHandler.cpp:262-271 | adding a child whose id is new keeps the registry well formed (root first, parents earlier, child ids extend parent ids, links both ways, unique ids) |
| Handler.AddChildFound | hi_snex/snex_jit/snex_jit_NamespaceHandler.cpp:262-271 | afterwards get() finds the new namespace and the parent lists it as a child |
| Handler.ReplaceWellFormed | hi_snex/snex_jit/snex_jit_NamespaceHandler.cpp:313-317 | replacing a record's aliases or used list keeps the registry well formed |
| Handler.ReplaceAliasWellFormed | hi_snex/snex_jit/snex_jit_NamespaceHandler.cpp:433-436 | replacing one alias by one with the same id keeps the registry well formed |
| Handler.ChildIsLinked | hi_snex/snex_jit/snex_jit_NamespaceHandler.cpp:264-270 | in a well-formed registry a namespace whose id extends another's is that one's child |
| Handler.RootIsFound | hi_snex/snex_jit/snex_jit_NamespaceHandler.cpp:741-763 | in a non-empty well-formed registry the root id is found at index 0 |
| Handler.RootOnlyWellFormed | hi_snex/snex_jit/snex_jit_NamespaceHandler.cpp:237-244 | the registry holding only the root namespace is well formed |
| Handler.PushName | hi_snex/snex_jit/snex_jit_NamespaceHandler.cpp:235-274 | with no cursor the root is created; an empty name moves to the root; otherwise the cursor lands on current id + name, the parent cursor on the old current, the namespace is created only when new (tagged with the internal mode) and it is a child of the old current |
| Handler.PushId | hi_snex/snex_jit/snex_jit_NamespaceHandler.cpp:212-233 | an existing namespace becomes the cursor with its parent as parent cursor; a missing non-explicit id is created under its own id; a missing explicit id pushes only its name under the cursor |
| Handler.PushIdFindsNamespace | hi_snex/snex_jit/snex_jit_NamespaceHandler.cpp:212-233 | after pushing a valid non-explicit id, get() of the id finds the cursor |
| Handler.Pop | hi_snex/snex_jit/snex_jit_NamespaceHandler.cpp:286-297 | at the root: ok and nothing changes; away from the root with the parent cursor set: ok and the cursor moves to the current namespace's parent; away from the root with the parent cursor unset: fails with "Can't pop namespace" and nothing changes; the registry and the parent cursor never change |
| Handler.PushThenPopRestores | hi_snex/snex_jit/snex_jit_NamespaceHandler.cpp:235-297 | pushing a name and popping returns the cursor to where it was, keeping the created namespace |
| Handler.PopNeverFailsOncePushed | hi_snex/snex_jit/snex_jit_NamespaceHandler.cpp:286-297 | after a push, popping twice succeeds both times, because popNamespace never clears the parent cursor |
| Handler.FindAliasAt | hi_snex/snex_jit/snex_jit_NamespaceHandler.cpp:39-51 | the first alias with the id is the one found |
| Handler.AddSymbolAt | hi_snex/snex_jit/snex_jit_NamespaceHandler.cpp:399-405 | the current namespace takes the internal mode; a symbol it already contains adds nothing, otherwise exactly one alias with the id, type, kind, empty value and the mode is appended; the registry stays well formed and no other namespace changes |
| Handler.AddSymbolResolves | hi_snex/snex_jit/snex_jit_NamespaceHandler.cpp:399-405 | a symbol just added resolves to itself from its namespace |
| Handler.AddSymbolSetsKind | hi_snex/snex_jit/snex_jit_NamespaceHandler.cpp:399-405 | a new symbol has the kind it was added with, and adding it again changes nothing |
| Handler.SetConstantAt | hi_snex/snex_jit/snex_jit_NamespaceHandler.cpp:407-423 | succeeds exactly when the current namespace has an alias with the id; then only that first alias changes, its value becoming the given one when the types agree and the converted one otherwise, and every other alias and namespace is unchanged; otherwise "fail" and nothing changes |
| Handler.ConstantIsStored | hi_snex/snex_jit/snex_jit_NamespaceHandler.cpp:412-415 | a value of the alias's own type is stored as it is and getConstantValue returns it |
| Handler.ConstantIsCoerced | hi_snex/snex_jit/snex_jit_NamespaceHandler.cpp:413-416 | a value of another type is stored converted to the alias's type and getConstantValue returns the converted value |
| Handler.SetTypeAt | hi_snex/snex_jit/snex_jit_NamespaceHandler.cpp:425-447 | fails with "Can't find namespace" exactly when the parent is missing, with "Can't find symbol" exactly when the alias is missing, with "Symbol type mismatch" exactly when the alias has another kind, and succeeds exactly when it has the expected kind; a failure changes nothing; a success changes only the type of the first alias with the id in the parent namespace |
| Handler.TypeIsStored | hi_snex/snex_jit/snex_jit_NamespaceHandler.cpp:425-447 | after a successful setTypeInfo, getTypeInfo returns the new type |
| Handler.SetKindAt | hi_snex/snex_jit/snex_jit_NamespaceHandler.cpp:193-210 | reports a change exactly when the symbol exists; then only the kind of the first alias with the id in the parent namespace changes; otherwise nothing changes |
| Handler.KindIsChanged | hi_snex/snex_jit/snex_jit_NamespaceHandler.cpp:193-210 | after a change the symbol has the new kind |
| Handler.UseNamespace | hi_snex/snex_jit/snex_jit_NamespaceHandler.cpp:312-321 | succeeds exactly when the namespace exists, appending its index to the current namespace's used list and changing nothing else; otherwise fails with "Can't find namespace <id>" and changes nothing |
| Handler.ImportedMemberIsCandidate | hi_snex/snex_jit/snex_jit_NamespaceHandler.cpp:312-321 | a member of a namespace just imported becomes the last resolution candidate under the importing namespace |
| Handler.AppendAlias | hi_snex/snex_jit/snex_jit_NamespaceHandler.cpp:672-680 | when the parent namespace exists an alias of the template kind, default type, empty value and the mode is appended there without a duplicate check, and no other namespace changes; otherwise nothing changes |
| Handler.AppendedTemplateIsDeclared | hi_snex/snex_jit/snex_jit_NamespaceHandler.cpp:672-680 | afterwards the template id is a declared symbol |
| Handler.AddTemplateAlias | hi_snex/snex_jit/snex_jit_NamespaceHandler.cpp:669-680 | with no cursor the registry becomes the root alone with the alias appended and the cursor on the root; with a cursor only the alias is appended; no namespace links change |
| Handler.FindNamespace | hi_snex/snex_jit/snex_jit_NamespaceHandler.cpp:754-763 | the loop returns what get() specifies |
| Handler.ScanEnclosing | hi_snex/snex_jit/snex_jit_NamespaceHandler.cpp:336-355 | the parent-walking loop returns the enclosing lookup |
| Handler.ScanUsed | hi_snex/snex_jit/snex_jit_NamespaceHandler.cpp:376-381 | the loop over used namespaces collects the used matches |
| Handler.ResolveIn | hi_snex/snex_jit/snex_jit_NamespaceHandler.cpp:323-397 | the resolve algorithm with its loops yields the status and id of the resolution function |
| Handler.FindAliasIndex | hi_snex/snex_jit/snex_jit_NamespaceHandler.cpp:409-420 | the alias loop of addConstant finds the first alias with the id |
| Handler.AnyOpenParameter | hi_snex/snex_jit/snex_jit_NamespaceHandler.cpp:494-501 | the loop reports whether some parameter is a template type |
| Handler.FirstMatchAt | hi_snex/snex_jit/snex_jit_NamespaceHandler.cpp:140-144 | the first matching type is the one found |
| Handler.FirstMatchIndex | hi_snex/snex_jit/snex_jit_NamespaceHandler.cpp:140-144 | the loop returns the first structurally matching type |
| Handler.FindTemplateIndex | hi_snex/snex_jit/snex_jit_NamespaceHandler.cpp:503-505 | the loop over templates returns the first with the id |
| Handler.InheritArguments | hi_snex/snex_jit/snex_jit_NamespaceHandler.cpp:657-667 | the in-place loop over template classes yields the inherited list |
| Handler.FindTemplateInherited | hi_snex/snex_jit/snex_jit_NamespaceHandler.cpp:657-667 | inheriting arguments does not change where any template id is found |
| Handler.CursorAfterRegister | hi_snex/snex_jit/snex_jit_NamespaceHandler.cpp:146-147 | with no cursor, registering a type that adds an entry creates the root and puts the cursor on it; otherwise the cursor state is unchanged |
| Handler.NamespaceHandler.GetNamespace | hi_snex/snex_jit/snex_jit_NamespaceHandler.cpp:754-763 | get() on the handler's registry |
| Handler.NamespaceHandler.PushNamespaceName | hi_snex/snex_jit/snex_jit_NamespaceHandler.cpp:235-274 | the cursor fields and registry become those of the push, keeping the invariant; the type and template lists are unchanged |
| Handler.NamespaceHandler.PushNamespace | hi_snex/snex_jit/snex_jit_NamespaceHandler.cpp:212-233 | the cursor fields and registry become those of the qualified push |
| Handler.NamespaceHandler.PopNamespace | hi_snex/snex_jit/snex_jit_NamespaceHandler.cpp:286-297 | status and cursor fields become those of Pop: a no-op at the root, a move to the parent, or the "Can't pop namespace" failure |
| Handler.NamespaceHandler.AddUsedNamespace | hi_snex/snex_jit/snex_jit_NamespaceHandler.cpp:312-321 | status and registry become those of the import; the cursors are unchanged |
| Handler.NamespaceHandler.ResolveId | hi_snex/snex_jit/snex_jit_NamespaceHandler.cpp:323-397 | status and rewritten id are the resolution of the id from the current namespace |
| Handler.NamespaceHandler.AddSymbol | hi_snex/snex_jit/snex_jit_NamespaceHandler.cpp:399-405 | the registry becomes that of adding the symbol in the current namespace |
| Handler.NamespaceHandler.AddConstant | hi_snex/snex_jit/snex_jit_NamespaceHandler.cpp:407-423 | status and registry become those of SetConstantAt on the current namespace: only the first alias with the id takes the (converted) value |
| Handler.NamespaceHandler.SetTypeInfo | hi_snex/snex_jit/snex_jit_NamespaceHandler.cpp:425-447 | status and registry become those of setting the type |
| Handler.NamespaceHandler.ChangeSymbolType | hi_snex/snex_jit/snex_jit_NamespaceHandler.cpp:193-210 | the id is first resolved, then the kind of the resolved symbol is changed |
| Handler.NamespaceHandler.RegisterComplexType | hi_snex/snex_jit/snex_jit_NamespaceHandler.cpp:135-153 | the type list and entry become those of the registration, and the root is created when there was no cursor and a new type is added |
| Handler.NamespaceHandler.CreateTemplateInstantiation | hi_snex/snex_jit/snex_jit_NamespaceHandler.cpp:486-544 | an unknown template fails with "Can't find template class" and changes nothing; the type is built as a templated placeholder when a parameter is a template type, otherwise by the class's builder; a build that fails is returned as the built type, unregistered, with its status; otherwise the built type is registered and the result is a handle to the registered entry, with ok |
| Handler.NamespaceHandler.CreateTemplateFunction | hi_snex/snex_jit/snex_jit_NamespaceHandler.cpp:546-565 | a known function template calls its builder; an unknown one fails with "Can't instantiate function template <id>" |
| Handler.NamespaceHandler.AddTemplateClass | hi_snex/snex_jit/snex_jit_NamespaceHandler.cpp:650-684 | the class list becomes that of registering the class, and the registry gains the TemplatedClass alias |
| Handler.NamespaceHandler.AddTemplateAliasHere | hi_snex/snex_jit/snex_jit_NamespaceHandler.cpp:669-680 | the handler's state becomes that of AddTemplateAlias: a root is created when there is no cursor and the alias is added to the namespace of the id's parent |
| Handler.NamespaceHandler.AddTemplateFunction | hi_snex/snex_jit/snex_jit_NamespaceHandler.cpp:686-706 | the function list becomes that of registering the function, and the registry gains the TemplatedFunction alias |
| Compiler.DeadCodeMessage | hi_snex/snex_jit/snex_jit_BaseCompiler.cpp:87-88 | the message is "Skipping removed expression at Line " followed by exactly the decimal rendering of the line |
| Compiler.ResetEvents | hi_snex/snex_jit/snex_jit_BaseCompiler.cpp:64-65 | one reset per registered pass, in list order |
| Compiler.Optimize | hi_snex/snex_jit/snex_jit_BaseCompiler.cpp:71-76 | the k-th call applies the k-th pass, with that pass current; a run that completes makes one call per pass, and a run with fewer calls did not complete |
| Compiler.StatementRun | hi_snex/snex_jit/snex_jit_BaseCompiler.cpp:62-90 | dead code never escapes a statement's work |
| Compiler.PhaseWork | hi_snex/snex_jit/snex_jit_BaseCompiler.cpp:67-81 | (definition) the optimisation loop in an optimising phase, otherwise one process() call with the current optimisation pass |
| Compiler.PassRun | hi_snex/snex_jit/snex_jit_BaseCompiler.cpp:60-91 | dead code never escapes a pass |
| Compiler.PassRunStep | hi_snex/snex_jit/snex_jit_BaseCompiler.cpp:60-91 | one more statement appends its own work to the run so far |
| Compiler.PassRunStops | hi_snex/snex_jit/snex_jit_BaseCompiler.cpp:60-91 | once a statement fails in any way other than dead code, later statements are not touched |
| Compiler.ProcessedAppend | hi_snex/snex_jit/snex_jit_BaseCompiler.cpp:60-91 | processed statements and reset counts of two traces add up |
| Compiler.ResetEventsCounted | hi_snex/snex_jit/snex_jit_BaseCompiler.cpp:64-65 | the resets process no statement and number one per pass |
| Compiler.StatementStartsWithResets | hi_snex/snex_jit/snex_jit_BaseCompiler.cpp:64-65 | every statement's work starts with a reset of each pass, whatever the phase |
| Compiler.PlainStatementEvents | hi_snex/snex_jit/snex_jit_BaseCompiler.cpp:80-81 | in a plain phase a statement is processed exactly once, after the resets, with the optimisation pass untouched |
| Compiler.OptimizeAppliesAllInOrder | hi_snex/snex_jit/snex_jit_BaseCompiler.cpp:67-76 | when every pass completes, each pass is applied in list order with itself as the current optimisation, and the last one stays current |
| Compiler.OptimizeStops | hi_snex/snex_jit/snex_jit_BaseCompiler.cpp:71-76 | once a pass signals dead code or fails, the remaining passes are skipped |
| Compiler.DeadCodeSkipsRestAndLogs | hi_snex/snex_jit/snex_jit_BaseCompiler.cpp:67-90 | dead code from pass j ends the statement's work after that call, logs the message with the line on the statement, and the statement counts as completed |
| Compiler.PlainPassVisitsEachOnce | hi_snex/snex_jit/snex_jit_BaseCompiler.cpp:60-91 | in a plain phase without hard failures every statement is processed once, in order |
| Compiler.PlainPassStep | hi_snex/snex_jit/snex_jit_BaseCompiler.cpp:60-91 | in a plain phase one more statement appends its own events and keeps the optimisation pass |
| Compiler.PlainStatementLogs | hi_snex/snex_jit/snex_jit_BaseCompiler.cpp:83-90 | the only message a plain statement logs is the dead-code message for its own line |
| Compiler.PlainPassThree | hi_snex/snex_jit/snex_jit_BaseCompiler.cpp:60-91 | three statements' runs follow each other in the pass trace |
| Compiler.DeadCodeRecovery | hi_snex/snex_jit/snex_jit_BaseCompiler.cpp:83-90 | in a plain phase, a statement removed as dead code gets its log message and the walk goes on to the next statement; all three statements are processed and that message is the only one logged |
| Compiler.PlainThreeLogs | hi_snex/snex_jit/snex_jit_BaseCompiler.cpp:83-90 | in a plain phase where only the middle of three statements is removed as dead code, its message is logged and is the only one |
| Compiler.PassThree | hi_snex/snex_jit/snex_jit_BaseCompiler.cpp:60-91 | in either phase, three statements' runs follow each other, each starting from the optimisation pass the previous one left current |
| Compiler.OptimizingStatementCompletes | hi_snex/snex_jit/snex_jit_BaseCompiler.cpp:62-90 | in an optimising phase where every pass completes on a statement: the resets, then every pass applied in list order, no message, and the last pass left current |
| Compiler.OptimizingPassAppliesAll | hi_snex/snex_jit/snex_jit_BaseCompiler.cpp:60-91 | in an optimising phase where every pass completes on every statement, for any statement list: the pass completes, each statement in tree order gets the resets and then every pass applied in list order (AppliedBlocks), and the last pass stays current |
| Compiler.OptimizingDeadCodeRecovery | hi_snex/snex_jit/snex_jit_BaseCompiler.cpp:67-90 | in an optimising phase, a middle statement removed as dead code at some pass gets its log message, the pass completes, every pass is applied to the statements before and after it, and that message is the only one logged |
| Compiler.BaseCompiler.ExecuteOptimization | hi_snex/snex_jit/snex_jit_BaseCompiler.cpp:41-49 | no current optimisation: nothing happens; otherwise that pass's own processStatementInternal() is applied to the statement, once |
| Compiler.BaseCompiler.OptimizeStatement | hi_snex/snex_jit/snex_jit_BaseCompiler.cpp:71-76 | the loop over passes makes the calls and leaves the optimisation pass the specification gives |
| Compiler.BaseCompiler.ResetPasses | hi_snex/snex_jit/snex_jit_BaseCompiler.cpp:64-65 | the trace gains one reset per pass, and nothing else changes |
| Compiler.BaseCompiler.RunPhaseWork | hi_snex/snex_jit/snex_jit_BaseCompiler.cpp:67-81 | the trace, optimisation pass and outcome become those of the phase's work on the statement: the pass loop when optimising, one process() call otherwise |
| Compiler.BaseCompiler.RunStatement | hi_snex/snex_jit/snex_jit_BaseCompiler.cpp:62-90 | the trace, optimisation pass and outcome become those of one statement's run |
| Compiler.BaseCompiler.RunNext | hi_snex/snex_jit/snex_jit_BaseCompiler.cpp:60-91 | one loop iteration extends the run from the first i statements to the first i + 1 |
| Compiler.BaseCompiler.RunStatements | hi_snex/snex_jit/snex_jit_BaseCompiler.cpp:60-91 | the statement loop leaves the trace and optimisation pass of the pass run, and fails only with a hard failure's message |
| Compiler.BaseCompiler.ExecutePass | hi_snex/snex_jit/snex_jit_BaseCompiler.cpp:53-92 | an optimisation phase with no passes returns at once and changes nothing; otherwise the current pass is set and the state becomes that of the pass run |
| Markdown.TextBlockEndsAtElement | hi_tools/hi_markdown/Markdown.cpp:293-325 | a character that ends a text block (other than '\r') would also start a new element |
| Markdown.IsNewElement | hi_tools/hi_markdown/Markdown.cpp:293-296 | (definition) '#', '\|', '!', '>', '-', 0, '\n' and the digits start a new element |
| Markdown.IsEndOfLine | hi_tools/hi_markdown/Markdown.cpp:298-301 | (definition) '\r', '\n' and 0 end a line |
| Markdown.IsNewToken | hi_tools/hi_markdown/Markdown.cpp:304-316 | (definition) the digit '0', and otherwise the code delimiters or the text delimiters, start a new token |
| Markdown.BelongsToTextBlock | hi_tools/hi_markdown/Markdown.cpp:319-325 | (definition) with stopAtLineEnd a character stays in the block unless it ends the line, otherwise unless it starts a new token |
| Markdown.CodeKeepsMarkers | hi_tools/hi_markdown/Markdown.cpp:304-325 | in code, the text markers '\|', '>' and '#' stay in the block; the digit '0' ends a block only when line ends do not stop it |
| Markdown.RangesFromShape | hi_tools/hi_markdown/Markdown.cpp:458-475 | the ranges from a position on have the search length, increase, do not overlap, and stay within the rest of the text |
| Markdown.RangesFrom | hi_tools/hi_markdown/Markdown.cpp:456-477 | (definition) the search loop from a position as a function; its properties are stated by RangesFromShape, RangesFromFound, RangesFromComplete, RangesCountAlike, RangesFromUncounted and RangesIgnoreAbsentNewLines |
| Markdown.RangesFromFound | hi_tools/hi_markdown/Markdown.cpp:458-475 | when newlines count, every range starts where the search string occurs |
| Markdown.RangesIgnoreAbsentNewLines | hi_tools/hi_markdown/Markdown.cpp:472-473 | without '\n' in the rest of the text the two counting modes give the same ranges |
| Markdown.OccursStarts | hi_tools/hi_markdown/Markdown.cpp:462 | an occurrence at j is where the rest of the text starts with the search string |
| Markdown.RangesFromComplete | hi_tools/hi_markdown/Markdown.cpp:460-476 | with line feeds counted, every occurrence reached before a NUL starts a marked range or lies inside an earlier marked one, so the leftmost occurrence is always taken |
| Markdown.RangesCountAlike | hi_tools/hi_markdown/Markdown.cpp:460-476 | counting line feeds or not, the search visits the same positions and finds the same number of ranges |
| Markdown.RangesFromUncounted | hi_tools/hi_markdown/Markdown.cpp:460-476 | for a search string without '\n', each uncounted range is the counted one moved back by the line feeds before its start |
| Markdown.MatchRangesProperties | hi_tools/hi_markdown/Markdown.cpp:448-478 | a search string of length 1 or less gives no ranges; otherwise the ranges are well spaced within the text; when newlines count, each is an occurrence and every occurrence before a NUL starts a marked range or lies inside an earlier marked one; both modes give as many ranges, and for a search string without '\n' each uncounted range is the counted one moved back by the line feeds before it |
| Markdown.GetMatchRanges | hi_tools/hi_markdown/Markdown.cpp:448-478 | the loop with a moving pointer and index yields the match ranges, whose properties MatchRangesProperties states |
| Markdown.LastIndexBelow | hi_tools/hi_markdown/Markdown.cpp:127 | the last occurrence before a bound, with no occurrence after it |
| Markdown.AfterLastSeparator | hi_tools/hi_markdown/Markdown.cpp:127 | the text after the last "---\n" holds no "---\n" |
| Markdown.CurrentText | hi_tools/hi_markdown/Markdown.cpp:122-128 | with the header the whole text; without it a suffix holding no "---\n", which follows the last separator when one exists |
| Markdown.LineNumber | hi_tools/hi_markdown/Markdown.cpp:552-563 | the line number is 1 plus the newlines before the cursor, at most one more than the position |
| Markdown.ExcerptEnd | hi_tools/hi_markdown/Markdown.cpp:565-575 | the excerpt holds at most 20 characters and stops only at the budget, the end or a 0 |
| Markdown.BuildMatchError | hi_tools/hi_markdown/Markdown.cpp:550-586 | the two loops build "Line N - Error at '<excerpt>': Expected: e, Actual: c" |
| Markdown.MismatchAt | hi_tools/hi_markdown/Markdown.cpp:569-586 | (definition) the error for a mismatch at a position: its line number and up to twenty characters from there; its parts are stated by LineNumber and ExcerptEnd |
| Markdown.LineEnd | hi_tools/hi_markdown/Markdown.cpp:623-643 | the line ends after the first '\n', or at the end or a 0, with no earlier '\n' |
| Markdown.Iterator.constructor | hi_tools/hi_markdown/Markdown.cpp:502-507 | the cursor starts at the start of the text |
| Markdown.Iterator.Peek | hi_tools/hi_markdown/Markdown.cpp:509-515 | 0 exactly at the end, else the character under the cursor; the cursor does not move |
| Markdown.Iterator.AdvanceIfNotEOF | hi_tools/hi_markdown/Markdown.cpp:517-524 | at the end nothing moves and the result is false; otherwise the cursor moves by n and the result says whether it is not at the end |
| Markdown.Iterator.Advance | hi_tools/hi_markdown/Markdown.cpp:526-530 | the cursor moves by n and the result says whether it is not at the end |
| Markdown.Iterator.AdvanceString | hi_tools/hi_markdown/Markdown.cpp:532-535 | the cursor moves by the string's length |
| Markdown.Iterator.Next | hi_tools/hi_markdown/Markdown.cpp:537-544 | at the end false without moving; otherwise the character under the cursor is consumed and the result is true |
| Markdown.Iterator.Match | hi_tools/hi_markdown/Markdown.cpp:546-591 | at the end false; a match consumes one character and is true; a mismatch consumes it and fails with the line-numbered message |
| Markdown.Iterator.MatchIf | hi_tools/hi_markdown/Markdown.cpp:593-601 | true and one character consumed exactly when the next character is the expected one; otherwise nothing moves |
| Markdown.Iterator.SkipWhitespace | hi_tools/hi_markdown/Markdown.cpp:603-612 | the cursor moves past exactly the leading whitespace |
| Markdown.Iterator.AdvanceLine | hi_tools/hi_markdown/Markdown.cpp:623-643 | the result is the consumed text up to and including the first '\n', or up to the end |
| Settings.LastMatchBelow | hi_components/plugin_components/StandalonePopupComponents.cpp:502-504 | the last prefix length below a bound at which the names agree, ignoring case |
| Settings.PrefixMatchShortens | hi_components/plugin_components/StandalonePopupComponents.cpp:502-504 | names that agree on a prefix agree on every shorter one |
| Settings.CommonPrefixLength | hi_components/plugin_components/StandalonePopupComponents.cpp:500-504 | the common part fits in both names |
| Settings.CommonPrefixIsLongest | hi_components/plugin_components/StandalonePopupComponents.cpp:500-504 | the common part is the longest prefix shorter than name1 on which the names agree ignoring case |
| Settings.CutAtWhitespace | hi_components/plugin_components/StandalonePopupComponents.cpp:508-509 | the prefix is cut back to empty or to a whitespace end, dropping only non-whitespace |
| Settings.SplitPoint | hi_components/plugin_components/StandalonePopupComponents.cpp:500-509 | the split point lies within the common part |
| Settings.PairNameDropsSharedWords | hi_components/plugin_components/StandalonePopupComponents.cpp:498-512 | the name is trimmed name1, " + ", and trimmed name2 from the split point, which ends a shared prefix at whitespace |
| Settings.ChannelPairName | hi_components/plugin_components/StandalonePopupComponents.cpp:498-512 | (definition) the pair name as a function; its form is stated by PairNameDropsSharedWords |
| Settings.NumberedInputsKeepTheirNumbers | hi_components/plugin_components/StandalonePopupComponents.cpp:506-509 | "input 11" and "input 12" give "input 11 + 12" |
| Settings.GetNameForChannelPair | hi_components/plugin_components/StandalonePopupComponents.cpp:498-512 | the two loops yield the channel pair name |
| Settings.PairsExtend | hi_components/plugin_components/StandalonePopupComponents.cpp:522-530 | adding the next pair entry keeps the pairs in step with the names |
| Settings.GetChannelPairs | hi_components/plugin_components/StandalonePopupComponents.cpp:514-536 | no device gives no pairs; otherwise ceil(n/2) entries, entry k merges names 2k and 2k+1, and a trailing odd name appears alone, trimmed |
| Settings.KeepOffered | hi_components/plugin_components/StandalonePopupComponents.cpp:305-309 | keeps exactly the candidates the device offers |
| Settings.KeepOfferedStrict | hi_components/plugin_components/StandalonePopupComponents.cpp:305-309 | kept candidates stay in increasing order |
| Settings.KeepOfferedStep | hi_components/plugin_components/StandalonePopupComponents.cpp:305-309 | each candidate line appends that size when it is offered |
| Settings.PowerOfTwoSizes | hi_components/plugin_components/StandalonePopupComponents.cpp:303-309 | the power-of-two list is increasing, has at most five sizes, and holds exactly the offered ones among 64 to 1024 |
| Settings.ChosenSizesFromPowers | hi_components/plugin_components/StandalonePopupComponents.cpp:301-313 | the list is replaced only when it had more than 7 sizes and more than 2 powers of two are offered; then it holds at least 3 offered powers of two |
| Settings.ChosenSizes | hi_components/plugin_components/StandalonePopupComponents.cpp:301-313 | (definition) the sizes kept after the power-of-two filter; stated by ChosenSizesFromPowers and ChosenSizesDistinct |
| Settings.AddIfMissing | hi_components/plugin_components/StandalonePopupComponents.cpp:317 | the default is then present, added once only when missing |
| Settings.InsertSorted | hi_components/plugin_components/StandalonePopupComponents.cpp:319 | insertion adds the value and keeps the other elements |
| Settings.InsertKeepsSorted | hi_components/plugin_components/StandalonePopupComponents.cpp:319 | inserting into a sorted list keeps it sorted |
| Settings.SortSeq | hi_components/plugin_components/StandalonePopupComponents.cpp:319 | the sorted list is ordered and a permutation of the input |
| Settings.SortedDistinctIsStrict | hi_components/plugin_components/StandalonePopupComponents.cpp:319 | a sorted list without repeats increases strictly |
| Settings.StrictIsDistinct | hi_components/plugin_components/StandalonePopupComponents.cpp:319 | a strictly increasing list has no repeats |
| Settings.ChosenSizesDistinct | hi_components/plugin_components/StandalonePopupComponents.cpp:301-313 | choosing sizes from a list without repeats keeps it without repeats |
| Settings.AddAndSortDistinct | hi_components/plugin_components/StandalonePopupComponents.cpp:317-319 | adding the default and sorting a list without repeats gives a strictly increasing list with the default exactly once |
| Settings.CollectPowerOfTwoSizes | hi_components/plugin_components/StandalonePopupComponents.cpp:303-309 | the five membership tests build the power-of-two list |
| Settings.RebuildBufferSizes | hi_components/plugin_components/StandalonePopupComponents.cpp:299-319 | the list is sorted, holds the default, and is a permutation of the chosen sizes plus the default when missing; for sizes without repeats it is strictly increasing with the default exactly once |
| Common.TrimEnd | hi_components/plugin_components/StandalonePopupComponents.cpp:511 | drops exactly the trailing whitespace |
| Common.LeadingWhitespace | hi_tools/hi_markdown/Markdown.cpp:607 | counts exactly the leading whitespace |
| Common.Trim | hi_components/plugin_components/StandalonePopupComponents.cpp:511 | the middle part between the leading and trailing whitespace |
| Common.NatToString | hi_tools/hi_markdown/Markdown.cpp:583 | decimal digits without a leading zero whose decimal value is the number |
| Common.CountChar | hi_tools/hi_markdown/Markdown.cpp:557-563 | the number of occurrences of the character |

## Left out

- The `NamespacedIdentifier` source is not part of this model. Its behaviour is assumed as follows:
  - an id is a path of names;
  - `getParent` drops the last name;
  - `isValid` means the last name is not empty;
  - `isExplicit` means at least one enclosing name;
  - `isParentOf` is a strict path prefix;
  - `relocate` from the root puts the new parent in front.
- The namespace objects are reference-counted and linked by pointers. Here they are records in one registry, linked by index.
- `Handler.NamespaceHandler.AddConstant`: requires a cursor, because the source dereferences a null current namespace when there is none.
- `Handler.NamespaceHandler.AddUsedNamespace`: requires a cursor, because the source dereferences a null current namespace when there is none.
- `Handler.NamespaceHandler.AddSymbol`: requires the id to be a member of the current namespace. The source only asserts this in debug builds.
- `Handler.NamespaceHandler.PushNamespace`: requires a non-empty registry or an explicit id. Otherwise the source would push the root's parent, which is the root itself, forever.
- The callbacks the handler calls are function values fixed at construction:
  - `ComplexType::matchesOtherType`;
  - `VariableStorage` conversion in `addConstant` (through `double`);
  - `makeClassType` and `makeFunction`;
  - the templated placeholder type.
  `registerExternalAtNamespaceHandler` is not modelled.
- Template objects are equal when their ids are equal (`addIfNotAlreadyThere`).
- `Templates.RegisterTemplateClass`: inheritance runs from the new class to templates registered before it. Adding a class prepends its arguments to every already-registered template it encloses, and a nested template registered later gets nothing. So registering `Outer<T>` and then `Outer::Inner<U>` leaves `Inner` with `[U]`; only the opposite order gives `[T, U]`. The model keeps this behaviour of the code, as `NestedAfterOuterKeepsOwnArguments` and `OuterArgumentsPrecedeNested` state.
- Not modelled, because they are printing or debug helpers:
  - `Namespace::dump` and `Alias::toString`;
  - `getCurrentNamespaceIdentifier`, `isNamespace` and `getRootId`.
  The variadic-type lookups and `getComplexType` are not modelled because they are outside the core.
- `Compiler.BaseCompiler.ExecutePass`: a statement's `process()` is modelled as a pure function of the statement, the phase and the current optimisation pass. Side effects of the passes on the syntax tree are not modelled. A non-dead-code exception propagates out of the source; here it ends the pass with a failure status.
- `Markdown.Iterator.Next`: at the end the out-character is 0. The source leaves it unassigned.
- `Markdown.Iterator.Advance`: requires the cursor to stay inside the text. Moving past the buffer is undefined in the source.
- `Markdown.Iterator.AdvanceIfNotEOF`: requires the same when it is not at the end.
- JUCE strings cannot hold an embedded 0. Here a 0 character in the text acts as the terminator, as it does for the iterator's pointer.
- Whitespace, digits and case folding are ASCII here. JUCE uses the full Unicode tables.
- `isNewToken` is modelled as written, including its test for the digit character '0'.
- The rest of the markdown parser is not modelled: rendering, layout caches, images, link resolution, the tokeniser and `getRestString`.
- `Settings.RebuildBufferSizes`: JUCE's `Array::sort` is modelled by an insertion sort function. The result is pinned down by being sorted and a permutation. The combo boxes, device manager calls and the rest of the settings window are not modelled.
