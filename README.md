# as2js in Dafny

A model of `as2js.py`, a text-to-text converter. It rewrites one ActionScript 3 class
file into one JavaScript file built on a configurable `extend` call. The model covers
everything the converter does between reading the source text and writing the result:

- **The escaping engine.** It turns `*/` into `~`, the brace that closes each outermost
  block into `@`, and each `var`/`const` keyword into `&`. Sentinels that were already
  in the text are first written out as long tokens. It also removes `:*` wildcard types.
- **The declaration lists.** These are `exclude`, `_findDeclarations`,
  `_findLocalDeclarations` and the member qualification of `scopeMembers`.
- **The token passes run over function bodies.** These are `localVariables`, `trace`,
  `superClass`, `catch`, `asType`, `isInstanceOf` and `intType`, plus `convertVector`,
  which runs over the whole file.
- **The formatters and the assembly order of `convert`.** The formatters are `indent`,
  `_formatComment`, `props`, `staticProps`, `_parseProps`, `_parseFuncs`,
  `_formatFunc`, `methods`, `staticMethods` and `requires`.

Strings are `seq<char>`. Python's `re.sub`, `re.findall` and `re.split` share one
left-to-right scan over a *matcher* (module `Matching`). A matcher is the match a fixed
pattern makes when tried at one position of the whole text. Each fixed pattern of the
converter is written out as such a matcher, with its greedy repetitions resolved:
`varKeyword`, `argumentP`, `localVariableP`, `identifierP`, the two per-identifier
patterns of `scopeMembers`, `traceP`, `superClassP`, `catchP`, `asP`, `isP`,
`intTypeP`, the three vector patterns and `requireP`.

The large extraction patterns (`propP`, `staticPropP`, `methodP`, `staticMethodP`,
`klassP`, `klassCommentP`) are not re-derived. Their matches are inputs to the model:
`Format.ClassMatches` and `Assembler.Patterns`. The configuration module `as2js_cfg` is
a value, `Format.Config`. It holds `indent`, `log`, `superClass`, `baseClass`,
`requireSubs`, and `textwrap.dedent` as an abstract function.

Modules follow the parts of the converter:

| module | file | contents |
|---|---|---|
| `Text` | text.dfy | `\w`, `\s`, `str.replace`, `str.join`, `str.splitlines`, `str.lstrip` and their laws |
| `Matching` | matching.dfy | `re.sub`, `re.findall`, `re.split` over a matcher |
| `Escaping` | escaping.dfy | `_escapeWildCard`, `_escapeFunctionEnd`, `_escapeEnds`/`_unescapeEnds`, `_escapeLocal`/`_unescapeLocal` |
| `Declarations` | declarations.dfy | `exclude`, `_findDeclarations`, `argumentP`, `localVariableP`, `_findLocalDeclarations` |
| `Scope` | scope.dfy | `identifierP`, `scopeMembers` |
| `Passes` | passes.dfy | the token passes and `convertVector` |
| `Format` | format.dfy | the formatters |
| `Assembler` | assembler.dfy | `findClassAndContent`, `convert` |

Where the converter loops, appends or accumulates, the model has a `method` with that
loop, proved equal to a function of its inputs:

- `_escapeFunctionEnd`, `exclude`, `_findDeclarations`, `localVariables` and
  `scopeMembers`;
- the loops of `_parseProps`, `_parseFuncs`, `props`, `staticProps`, `methods`,
  `staticMethods`, `indent` and `requires`;
- `convert`.

The properties are then proved about those functions.

Behaviour of the code worth knowing:

- **The escape round trips are not unconditional.** `_escapeEnds` and `_escapeLocal`
  first delete every `:*`, so a wildcard never comes back (`Escaping.WildCardLost`). A
  text that already holds one of the written-out tokens (`commentEndEscapeEscape`,
  `functionEndEscapeEscape`, `<varEscapeEscape>`) comes back with the sentinel in the
  token's place.
- **`const` does not survive the keyword round trip.** Every whole-word `const` comes
  back as `var`.
- **A file without a class does not produce boilerplate.** `findClassAndContent`
  returns nothing, and unpacking that result in `convert` fails. The model returns
  `None` in both places.
- **Function bodies stay escaped.** A function body is taken from the escaped class
  text, and only its comment is unescaped afterwards. A `*/`, `~` or `@` inside a body
  therefore reaches the output in its escaped form, and the model keeps that behaviour.

## Model

| member | source | states |
|---|---|---|
| `Text.LStrip` | as2js.py:306 | the result is a suffix of the input that does not start with whitespace, and everything removed is whitespace |
| `Text.SplitLines` | as2js.py:451 | no line of `splitlines` holds a line break |
| `Text.SplitJoin` | as2js.py:451-457 | joining break-free lines with `"\n"` and splitting again gives the lines back when the last is not empty |
| `Text.ReplaceShortens` | as2js.py:320 | a replacement shorter than its pattern never lengthens a text, shortens it when the pattern occurs, and returns it unchanged when it does not |
| `Text.ExpandRoundTrip` | as2js.py:149-163 | expanding a sentinel into a self-non-overlapping token and contracting the token again restores a text that never held the token |
| `Text.ContractRoundTrip` | as2js.py:149-163 | contracting a pattern into a sentinel the text never held and expanding it again restores the text |
| `Matching.SubFromRenders` | as2js.py:214-217 | `re.sub` renders the same scan that `re.findall` and `re.split` read: text between matches kept, each match replaced |
| `Matching.FindAllEmpty` | as2js.py:794-796 | `re.findall` returns nothing exactly when the pattern matches at no position |
| `Matching.SubNothingFound` | as2js.py:621-623 | where `re.findall` finds nothing, `re.sub` returns the text unchanged |
| `Matching.FindAllGroups` | as2js.py:214 | every item `re.findall` returns is the groups of a match at some position |
| `Matching.FindAllEvery` | as2js.py:214 | a match at a position that no earlier match reaches over is among what `re.findall` returns |
| `Matching.SubShrinks` | as2js.py:863-865 | when each replacement is shorter than its match, `re.sub` shortens the text unless nothing matches, and then returns it unchanged |
| `Matching.SubDeparts` | as2js.py:527-540 | when no replacement repeats the text it replaces, `re.sub` returns a text unchanged exactly when nothing matches in it |
| `Escaping.CommentTokenNoBorder` | as2js.py:37 | two occurrences of `commentEndEscapeEscape` can never overlap |
| `Escaping.FunctionTokenNoBorder` | as2js.py:44 | two occurrences of `functionEndEscapeEscape` can never overlap |
| `Escaping.FunctionTokenUnentangled` | as2js.py:37-44 | expanding `@` into its token cannot create the comment token |
| `Escaping.VarTokenNoBorder` | as2js.py:22-23 | `<varEscapeEscape>` cannot overlap itself and does not contain `&` |
| `Escaping.EscapeWildCard` | as2js.py:311-320 | removing `:*` never lengthens the text |
| `Escaping.WildCardUnchanged` | as2js.py:311-320 | the wildcard escape leaves a text alone exactly when it holds no `:*` |
| `Escaping.MarkPointwise` | as2js.py:133-139 | a character changes only when it is a `}` at which the running count of `{` minus `}` is zero, and then it becomes `@` |
| `Escaping.MarkOutermost` | as2js.py:129-140 | the loop over the character list keeps the length and writes `@` exactly at the outermost closing braces; the rest is copied |
| `Escaping.EscapeFunctionEnd` | as2js.py:112-140 | after `@` is written out as its token, the length is kept, only braces that bring the depth back to zero change, and they become `@`; a leading unmatched `}` makes the depth negative and is not escaped |
| `Escaping.FunctionEndsPointwise` | as2js.py:128-140 | the same characterisation, for the function that `_escapeEnds` uses |
| `Escaping.UnmarkMark` | as2js.py:162 | turning each `@` back into `}` undoes the marking of a text without `@` |
| `Escaping.EndsRoundTrip` | as2js.py:143-163 | `_unescapeEnds(_escapeEnds(x)) == x` for every `x` without `:*`, `commentEndEscapeEscape` or `functionEndEscapeEscape`; a `~` or `@` of `x` survives |
| `Escaping.WildCardLost` | as2js.py:148 | without the wildcard condition the round trip fails: `:*` comes back empty |
| `Escaping.KeywordAt` | as2js.py:21 | the keyword pattern matches exactly where `var` or `const` stands as a whole word, and spans it |
| `Escaping.SubKeywordsIsRegexSub` | as2js.py:175 | the run-wise keyword replacement is `re.sub` of the `varKeyword` pattern |
| `Escaping.TokenKeywords` | as2js.py:174-175 | the written-out `&` passes through the keyword replacement untouched |
| `Escaping.KeywordsCommuteExpand` | as2js.py:174-175 | writing out `&` commutes with replacing the keywords by `var` |
| `Escaping.KeywordsKeepAbsent` | as2js.py:174-175 | replacing the keywords by `var` cannot create `<varEscapeEscape>` |
| `Escaping.KeywordRep` | as2js.py:173-186 | for a text without `&`, replacing the keywords by `&` and then `&` by `var` is replacing the keywords by `var` |
| `Escaping.LocalRoundTrip` | as2js.py:168-186 | `_unescapeLocal(_escapeLocal(x))` is `x` with every whole-word `const` spelled `var`, for `x` without `:*` and `<varEscapeEscape>` |
| `Escaping.KeywordsFixedWithoutConst` | as2js.py:168-186 | a text without `const` is a fixed point of the keyword replacement (`const` to `var`) |
| `Escaping.LocalRoundTripWithoutConst` | as2js.py:168-186 | `_unescapeLocal(_escapeLocal(x))` is `x` itself, for `x` without `const`, `:*` and `<varEscapeEscape>` |
| `Escaping.AndPreserved` | as2js.py:179-183 | the body `return 0 && 1` survives the local escape and unescape |
| `Declarations.ExcludedMembers` | as2js.py:567-576 | an item is kept by `exclude` exactly when it is in the list and not among the exclusions |
| `Declarations.ExcludedConcat` | as2js.py:567-576 | `exclude` distributes over concatenation, so the kept items keep their order |
| `Declarations.ExcludedNone` | as2js.py:567-576 | excluding items that do not occur leaves the list unchanged |
| `Declarations.Exclude` | as2js.py:567-576 | the loop computes the filtered list |
| `Declarations.FirstOccurrencesSpec` | as2js.py:473-475 | the de-duplicated list has the same items and no duplicates |
| `Declarations.FirstOccurrencesOrder` | as2js.py:473-475 | the de-duplicated list is in first-seen order |
| `Declarations.DeclarationsSpec` | as2js.py:468-476 | `_findDeclarations` returns each matched name not excluded, exactly once, in first-seen order, and nothing else |
| `Declarations.FindDeclarations` | as2js.py:468-476 | the nested loops compute those declarations |
| `Declarations.ArgumentAt` | as2js.py:33 | `argumentP` matches exactly at word characters |
| `Declarations.TypeEnd` | as2js.py:19 | the group `(:\w+)` is taken exactly when `:` and a word character follow, and then runs to the end of the word |
| `Declarations.DefinitionEnd` | as2js.py:18-19 | the group `(\s*=\s*literal)` is taken exactly when whitespace, `=`, whitespace and a literal character follow, and then runs to the end of the literal |
| `Declarations.ArgumentFrom` | as2js.py:19 | a parameter match is a whole word for the name, then `:type` or nothing, then a definition that starts with whitespace or `=`, or nothing |
| `Declarations.ArgumentFromGroups` | as2js.py:19 | after the name and the whitespace, the type is taken exactly when `:` and a word character follow, and the definition exactly when `= literal` follows the type |
| `Declarations.ArgumentsShaped` | as2js.py:386 | every parameter `findall` returns is named by a word and carries `:type` or no type |
| `Declarations.LocalVariableAt` | as2js.py:189 | `localVariableP` matches exactly at an `&` followed by whitespace and a word character, and its groups have the pattern's shape |
| `Declarations.LocalVariablesShaped` | as2js.py:214 | every escaped local declaration found has that shape |
| `Declarations.FindLocalDeclarations` | as2js.py:559-564 | the local declarations are words |
| `Declarations.LocalDeclarationsFound` | as2js.py:559-564 | a name is a local declaration exactly when the escaped body holds `&`, whitespace and the whole word `name` |
| `Declarations.KeywordDeclaresLocal` | as2js.py:559-564 | a whole-word `var` or `const`, whitespace and a name that is no keyword make that name a local declaration |
| `Scope.IdentifierAt` | as2js.py:579 | `identifierP` matches exactly at a run of lead characters followed by a word, and captures that whole word |
| `Scope.IdentifiersAreWords` | as2js.py:613 | every identifier found is a word |
| `Scope.MemberPass` | as2js.py:620-621 | the member substitution inserts `scope.` exactly before each use of the name that follows a character other than a word character, `.`, `"` or `'`, ends at a word boundary and is not followed by `:`; `Klass.NO` is therefore left alone |
| `Scope.CasePass` | as2js.py:622-623 | the `case` substitution inserts `scope.` exactly before each name in a `case NAME :` label |
| `Scope.ScopeIdentifierInserts` | as2js.py:619-623 | for one member, both substitutions insert the scope at the unqualified uses, then at the `case` labels |
| `Scope.ScopeAllAtSites` | as2js.py:619-623 | scoping a sequence of identifiers inserts the scope at each one's unqualified uses and `case` labels, one identifier after the other |
| `Scope.ScopedAtMemberSites` | as2js.py:581-624 | `scopeMembers` inserts the scope at the sites of every member the body uses, in the order of first use |
| `Scope.SelectMembers` | as2js.py:614-618 | the first loop collects the members among the identifiers, each once, in the order first found |
| `Scope.ScopeMembers` | as2js.py:581-624 | the whole function computes the scoped body |
| `Scope.MemberIdentifiersSpec` | as2js.py:610-618 | a name is scoped exactly when the body uses it, it is a member and it is not a local declaration of the body, and each is scoped once |
| `Scope.ScopedUnchanged` | as2js.py:581-624 | a body that uses no member is returned unchanged |
| `Passes.CallMatch` | as2js.py:479-490 | `(\s+)word\s*(\()` matches only at a call site: whitespace, the word, whitespace and `(`; the group is the leading whitespace |
| `Passes.CallMatchAtSite` | as2js.py:479-490 | at every call site the pattern matches, up to the `(`, with the leading whitespace as its group |
| `Passes.TraceRewrites` | as2js.py:490-498 | the first `trace(` after whitespace becomes `log(` with the whitespace kept, and the text before it is copied |
| `Passes.SuperClassRewrites` | as2js.py:479-487 | the first `super(` after whitespace becomes `superClass(` with the whitespace kept, and the text before it is copied |
| `Passes.TraceUnchanged` | as2js.py:490-498 | a body without `trace` is returned unchanged; unless `cfg.log` itself begins with `trace`, a body is returned unchanged exactly when no `trace(` call follows whitespace in it |
| `Passes.SuperClassUnchanged` | as2js.py:479-487 | a body without `super` is returned unchanged; unless `cfg.superClass` itself begins with `super`, a body is returned unchanged exactly when no `super(` call follows whitespace in it |
| `Passes.CatchMatchSound` | as2js.py:501 | a `catchP` match is a catch site: `catch` at a word boundary, `(` and a name, `:`, a type without `(`, and the last `)` before the next `(`; the groups are `catch(` and the name |
| `Passes.CatchMatchAtSite` | as2js.py:501 | at every catch site the pattern matches, up to that `)`, with those groups |
| `Passes.CatchRewrites` | as2js.py:501-508 | the first typed `catch` loses the `:` and the type up to the `)`, and the text before it is copied |
| `Passes.CatchUnchanged` | as2js.py:501-508 | `catch` changes a body exactly when its pattern matches somewhere |
| `Passes.TypeTestMatch` | as2js.py:511-527 | a match of `\s+as\s+\w+\b` or `\s+is\s+(\w+)\b` is whitespace, the word, whitespace and a whole name |
| `Passes.TypeTestMatchAtSite` | as2js.py:511-527 | wherever whitespace, the word, whitespace and a whole name stand, the pattern matches them, with the name as its group |
| `Passes.AsTypeRewrites` | as2js.py:511-524 | the first ` as Name` is removed with the whitespace before it, and the text before it is copied |
| `Passes.IsInstanceOfRewrites` | as2js.py:527-540 | the first ` is Name` becomes ` instanceof Name`, and the text before it is copied |
| `Passes.AsTypeUnchanged` | as2js.py:511-524 | `asType` changes a body exactly when its pattern matches somewhere |
| `Passes.IsInstanceOfUnchanged` | as2js.py:527-540 | `isInstanceOf` returns a body unchanged exactly when `\s+is\s+(\w+)\b` matches nowhere in it, in particular when it has no `is` |
| `Passes.IntMatch` | as2js.py:543 | `intTypeP` matches exactly at a character that is neither `.` nor a word character and is followed by `int(` |
| `Passes.IntTypeRewrites` | as2js.py:543-556 | the first `int(` after a character that is neither `.` nor a word character gets `Math.floor(` in its place, that character kept, and the text before it is copied |
| `Passes.IntTypeUnchanged` | as2js.py:543-556 | `intType` leaves a body unchanged exactly when each `int(` in it is at the start or after `.` or a word character, as in `A.int(` |
| `Passes.ConstructorMatchSound` | as2js.py:56-57 | a vector-constructor match is `new`, whitespace, a vector type with its whole `>` run, `(`, digits and `)` |
| `Passes.VectorTypeMatchSound` | as2js.py:51-52 | a vector-type match is `Vector.<`, characters other than `>`, and the whole run of `>` that follows |
| `Passes.LiteralMatchSound` | as2js.py:54-55 | a vector-literal match is `new`, whitespace, `<`, characters other than `>`, and the whole run of `>` |
| `Passes.ConstructorMatchAtSite` | as2js.py:56-57 | wherever a vector constructor stands, the pattern matches it up to the `)` |
| `Passes.VectorTypeMatchAtSite` | as2js.py:51-52 | wherever a vector type stands, the pattern matches it up to the end of the `>` run |
| `Passes.LiteralMatchAtSite` | as2js.py:54-55 | wherever `new <Type>` stands, the pattern matches it up to the end of the `>` run |
| `Passes.ConstructorRewrites` | as2js.py:854-861 | the first vector constructor becomes `new Array()`, and the text before it is copied |
| `Passes.VectorTypeRewrites` | as2js.py:854-864 | the first vector type becomes `Array`, and the text before it is copied |
| `Passes.LiteralRewrites` | as2js.py:854-865 | the first `new <Type>` is removed, and the text before it is copied |
| `Passes.VectorShrinks` | as2js.py:863-865 | each of the three replacements is shorter than what it replaces |
| `Passes.ConvertVectorUnchanged` | as2js.py:854-866 | `convertVector` leaves a text unchanged exactly when none of its three patterns matches |
| `Passes.KeepParts` | as2js.py:219-223 | the loop concatenates the parts that are neither empty nor a declared type |
| `Passes.LocalVariables` | as2js.py:191-225 | the method computes the body as escaped, split, filtered and unescaped |
| `Passes.DataTypesTyped` | as2js.py:215-216 | every declared type found is empty or starts with `:` |
| `Passes.DeclarationsLoseOnlyType` | as2js.py:213-223 | the escape, name and definition of every declaration survive the filter, and its own type is among the declared types; so a declaration loses only its type whenever the text before it survives |
| `Passes.LocalTypesDropped` | as2js.py:191-225 | `localVariables` removes the type of each local declaration and the whitespace after its name, and nothing else, when no text between declarations is itself a declared type |
| `Passes.LocalVariablesWithoutDeclarations` | as2js.py:191-225 | a body without `:*`, without `<varEscapeEscape>` and without local declarations comes back with each whole-word `const` spelled `var` |
| `Format.Indent` | as2js.py:434-458 | the loop computes the indented text |
| `Format.IndentLines` | as2js.py:449-457 | split into lines again, the result is the dedented lines, each non-empty one prefixed by `indents` indent steps and each empty one left empty |
| `Format.FormatComment` | as2js.py:302-308 | the result is empty exactly when the comment is; otherwise it ends with a line break and, unless it is the line break alone, does not start with whitespace |
| `Format.ParseProps` | as2js.py:323-336 | the loop computes the parsed fields: comment formatted, definition unescaped and scoped to the class's static members |
| `Format.FormatProps` | as2js.py:273-299 | the loop over the parsed fields computes the text of `props` |
| `Format.Props` | as2js.py:236-299 | `props` is the parsed fields formatted |
| `Format.MemberLines` | as2js.py:274-288 | outside a constructor every field gives its line, in order |
| `Format.AssignmentLines` | as2js.py:274-288 | in a constructor exactly the defined fields give a line, each the name followed by its definition as written |
| `Format.ObjectValueHasNoAssignment` | as2js.py:277 | an object member's value holds no `=` |
| `Format.PropsTextEmpty` | as2js.py:289-299 | `props` is empty exactly when no field gives a line (none at all outside a constructor, none defined in one); otherwise it ends with the separator, `,` or `;` |
| `Format.StaticProps` | as2js.py:61-109 | the loop computes one `Klass.name definition;` line per static field, joined by line breaks |
| `Format.StaticPropsTextEmpty` | as2js.py:101-109 | `staticProps` is empty exactly when there are no static fields; otherwise it ends with `;` |
| `Format.ParseArguments` | as2js.py:386-397 | the loop gives the parameter names in order, the three guard lines of each defaulted parameter, and the names each once |
| `Format.ParseFunc` | as2js.py:383-430 | the loop body formats one function as specified |
| `Format.ParseFuncs` | as2js.py:338-432 | `_parseFuncs` gathers the declarations once, then formats every function in order |
| `Format.ParameterList` | as2js.py:406 | the parameter list holds only word characters, `,` and spaces: no type and no default survives |
| `Format.WithDefault` | as2js.py:394 | the defaulted parameters all carry a definition |
| `Format.DefaultGuards` | as2js.py:394-397 | each defaulted parameter gives the lines `if (undefined === p) {`, indent + `p` + definition + `;`, and `}`, in order, three per parameter |
| `Format.ParametersNotScoped` | as2js.py:398-424 | a parameter is never qualified, neither to `this` nor to the class |
| `Format.DefaultsNeedDefinitions` | as2js.py:401-405 | only an instance function of a class with some defined field carries field assignments |
| `Format.FormatMethods` | as2js.py:699-710 | the loop computes the instance functions, separated by a comma and a blank line |
| `Format.Methods` | as2js.py:634-711 | `methods` is the instance functions parsed and formatted |
| `Format.FormatFuncLayout` | as2js.py:461-465 | a formatted function is its comment, name, operator and `function(`, then its parameters, `)`, a line break and `{`, then its body, then a line break and `}`; each part can be read back at its place |
| `Format.ConstructorGuardsFirst` | as2js.py:700-706 | the constructor is renamed `ctor`, keeps its comment and parameters, and its body starts with the field assignments on a line of their own, when there are any, before the original body |
| `Format.MethodEntriesSpec` | as2js.py:701-709 | one entry per function, in order; only the constructor is renamed, to `ctor`; parameters are kept |
| `Format.FormatStaticMethods` | as2js.py:762-767 | the loop computes `Klass.name = function(...)...;` per static function |
| `Format.StaticMethods` | as2js.py:717-768 | `staticMethods` is the static functions parsed and formatted |
| `Format.StaticMethodsTextEmpty` | as2js.py:762-767 | `staticMethods` is empty exactly when there are no static functions; otherwise it ends with `};` |
| `Format.RequireMatch` | as2js.py:770 | a `requireP` match is spaces, `import` on a word boundary, whitespace and a maximal dotted name, which is the group |
| `Format.RequireMatchSound` | as2js.py:770 | a `requireP` match is an import site, and its group is the dotted name there |
| `Format.RequireMatchAtSite` | as2js.py:770 | at every import site the pattern matches, up to the end of the dotted name, which is the group |
| `Format.RequireListed` | as2js.py:794-803 | every import that no earlier match reaches over is found and gets its `require` line |
| `Format.Requires` | as2js.py:772-810 | the nested loops compute the `require` header |
| `Format.RequiresNothing` | as2js.py:794-808 | the header is the strict-mode line alone exactly when the text imports nothing |
| `Format.RequiresHeader` | as2js.py:796-805 | with imports, the header starts with the lint line followed by the strict-mode line |
| `Format.RequiresStrict` | as2js.py:772-810 | every header puts the file in strict mode |
| `Format.ModulePathWithoutSubs` | as2js.py:799 | without substitutions a module's file is its dotted name with dots made slashes, followed by `.js` |
| `Format.ModulePathSubstituted` | as2js.py:799-801 | a substitution whose source path starts the module's file, and occurs nowhere after it, replaces that start alone |
| `Format.ModulePathPackage` | as2js.py:776-801 | with the path of a package substituted, as in the documented example, every class of that package whose name has no `.` and whose file name does not contain the package path is loaded from the target path |
| `Assembler.FindClassAndContent` | as2js.py:822-852 | there is a result exactly when the class pattern matches; the name and body are the groups of its first match; the comment is the first comment found, unescaped, when that is not empty, and empty otherwise |
| `Assembler.Converted` | as2js.py:868-882 | conversion fails exactly when the text, its vectors converted, declares no class |
| `Assembler.Convert` | as2js.py:868-882 | the method's string building computes the converted file |
| `Assembler.ConvertedLayout` | as2js.py:873-876 | the file starts with the `require` header, is in strict mode, and declares the class found as an extension of the base class |

## Left out

- File handling (`convertFile`, `convertFiles`, `realpath`, `_testCfg` and the main
  block, as2js.py:885-927) is not modelled: it is file I/O, `glob`, running the
  doctests and changing the configuration for them.
- The module `as2js_cfg` is not part of this model; its values are the parameter
  `Format.Config`.
- The extraction patterns `propP`, `staticPropP`, `methodP`, `staticMethodP`, `klassP`
  and `klassCommentP` (as2js.py:47-49, 231-233, 628-631, 713-715, 813-820) are not
  modelled as patterns. Their `findall` results are inputs (`Format.ClassMatches`,
  `Assembler.Patterns`). This leaves out their fixed-width lookbehind quirk, which lets
  `static  public` through (as2js.py:30, 254-255).
- `textwrap.dedent` (as2js.py:449) is an abstract function in `Format.Config`. Only the
  per-line prefixing is modelled concretely.
- Python's general regular-expression engine is not modelled. Each fixed pattern is a
  hand-written matcher, and the proofs are about those matchers.
- No claim is made that the emitted JavaScript is syntactically valid.
- Passes.LocalTypesDropped: states the type removal only when no text between two
  declarations, or after the last, equals a declared type. The source also drops such
  text, and the contract does not describe that case.
- Format.IndentLines: states the line structure only when the indent step holds no
  line break and the last dedented line is not empty. Otherwise `splitlines` would
  merge or split lines differently.
- Assembler.ConvertedLayout: states the header, the strict mode and the class
  declaration, not the whole file; `Assembler.Convert` ties the method to the full
  definition `Assembler.Converted`.
- Passes.CallTo: the configured `log` and `superClass` values are inserted literally.
  The source passes `\1` + value + `\2` to `re.sub` as a template (as2js.py:487,
  498), so a backslash in the value would be read as an escape or a group reference,
  and a leading digit would turn `\1` into another group reference. The model holds
  for configured values free of both, such as `cc.log` and `this._super`.
- Passes.TraceUnchanged: the exactly-when half assumes `cfg.log` does not begin with `trace`; with `log` set to `trace`, a `trace(` call is rewritten into itself, so a body can have a match and still come back unchanged.
- Passes.SuperClassUnchanged: likewise, the exactly-when half assumes `cfg.superClass` does not begin with `super`.
- Declarations.KeywordDeclaresLocal: stated for bodies without `:*`. Removing a
  wildcard type can join two runs of word characters, so the declarations found in
  such a body are stated only by `Declarations.LocalDeclarationsFound`, on the escaped
  text.
- Format.FormatComment: states emptiness, the final line break and the stripped start.
  It does not state the unescaping and the dedent, which `textwrap.dedent` being
  abstract leaves to the definition.
