# A Dafny model of the generator's registration engine

The generator creates entity modules (`createModule`), use cases
(`createUseCase`), a five-part CRUD use-case set (`generateCrudUseCases`) and
project skeletons (`generateSkeleton`). Apart from writing template files it
wires each new piece into existing aggregator source files by editing their
text. This project models that editing, and the name transforms it rests on,
as pure functions over `seq<char>`, and proves properties of them.

- `wrappers.dfy` (`Wrappers`): `Option` and `Result`.
- `text.dfy` (`Text`): `indexOf`, `lastIndexOf`, `includes`, `trim`,
  `split` and `join` as the JavaScript string methods behave, with `\s`
  being the ECMAScript white-space and line-terminator set. It also holds
  `Splice`, the one editing primitive: every edit the generator makes is
  `content.slice(0, q) + insertion + content.slice(q)`.
- `name_case.dfy` (`NameCase`): `toPascalCase`, `toCamelCase`,
  `toKebabCase`, `toSnakeCase` and `toUpperSnakeCase`, with the regular
  expressions written out as scanners. It also holds the naive suffix
  pluralizer of `src/create_module.ts`. `src/create_module.ts:6-33` repeats
  the case helpers of `src/lib/stringUtils.ts` character for character, so
  they are modelled once.
- `bracket_scan.dfy` (`BracketScan`): the bracket-depth loop that finds the
  `]` closing an `imports` array.
- `patch.dfy` (`Patch`): the steps the registration sites share.
  - The new import line goes after the line holding the last `import `, or
    is prepended.
  - The array is found by the exact text `imports: [`, by the regular
    expression `imports:\s*\[`, or by either.
  - A `", "` separator is used unless the array content is blank or ends with
    a comma.
  - The element is spliced in before the closing bracket.
  - `Site` records what differs between sites: the guard text, the import
    line, the element, how the array is found, and whether the file is
    written when the array edit did not happen. `Register` runs one site.
- `create_module.ts` sites (`CreateModule`, in `create_module.dfy`): the name
  forms, the `src/schema.ts` export append and the `src/core/CoreModule.ts`
  registration.
- `create_use_case.ts` sites (`CreateUseCase`, in `create_use_case.dfy`): the
  core-module imports of a use case, the `src/use-case/UseCaseModule.ts`
  registration and the `src/main.routes.ts` import-and-route patch.
- `crud_use_cases.dfy` (`CrudUseCases`): `CrudConfig`, the five use-case names
  and directories, the aggregator module's text and its registration in
  `UseCaseModule.ts`.
- `skeleton.dfy` (`Skeleton`): the project-name guards and the barrel
  `index.ts` text that `createIndex` builds.

File contents are parameters. An aggregator file is `None` when it does not
exist and `Some(text)` otherwise. A registration returns `Written(text)` or
`NotWritten(reason)`, and the reason is `FileMissing`, `AlreadyRegistered`,
`NoArray`, `Unmatched` or `AlreadyListed`. Whether a directory already exists
is a set of existing paths. Errors thrown before any work become
`Failure(NameRequired)` or `Failure(DirectoryExists(path))`.

## Model

| member | source | states |
|---|---|---|
| NameCase.PascalCase | src/lib/stringUtils.ts:8-12 | the result holds no white space, `-` or `_`, and is no longer than the input |
| NameCase.CapitalizeOnlyWordStarts | src/lib/stringUtils.ts:10 | a character changes exactly when it is a lower-case letter at the start of the text or after a non-word character; every character keeps its letter |
| NameCase.PascalKeepsLettersInOrder | src/lib/stringUtils.ts:9-11 | up to case, the Pascal form is the input with every white space, `-` and `_` deleted |
| NameCase.UnderscoreDoesNotStartWord | src/lib/stringUtils.ts:9-11 | `_` is a word character, so `blog_post` gives `Blogpost` |
| NameCase.PascalOfHyphenated | src/lib/stringUtils.ts:9-11 | for lower-case words joined by `-`, the Pascal form is the words capitalized and concatenated |
| NameCase.CamelAgreesWithPascal | src/lib/stringUtils.ts:17-20 | the camel form equals the Pascal form up to case, has no separators, and does not start with an upper-case letter |
| NameCase.KebabCase | src/lib/stringUtils.ts:25-30 | the result has no upper-case letter, no white space and no `_` |
| NameCase.KebabIdempotent | src/lib/stringUtils.ts:25-30 | applying the kebab transform a second time changes nothing |
| NameCase.SnakeCase | src/lib/stringUtils.ts:35-40 | the result has no upper-case letter, no white space and no `-` |
| NameCase.SnakeIdempotent | src/lib/stringUtils.ts:35-40 | applying the snake transform a second time changes nothing |
| NameCase.MarkCaseBoundariesSpec | src/lib/stringUtils.ts:27 | for a mark that is not a letter, after the `([a-z])([A-Z])` pass no lower-case letter is directly followed by an upper-case one, the first character is kept, erasing the marks gives the input with its own marks erased, the text grew by exactly one character per lower/upper pair, and each input character sits shifted right by the number of pairs up to it, so every added mark separates a pair and nothing else moved |
| NameCase.MarkSeparates | src/lib/stringUtils.ts:27 | for a mark that is not a letter, no lower-case letter is left directly before an upper-case one, the first character is kept, and erasing the marks gives the input with its own marks erased |
| NameCase.MarkKeepsPositions | src/lib/stringUtils.ts:27 | the marking pass adds one character per lower/upper pair, and the input character at `k` is found at `k` plus the number of pairs in the first `k + 1` characters |
| NameCase.UpperSnakeCase | src/lib/stringUtils.ts:45-47 | the result is as long as the snake form and has no lower-case letter, white space or `-` |
| NameCase.UpperSnakeLowersToSnake | src/lib/stringUtils.ts:45-47 | lower-casing the upper snake form gives the snake form |
| NameCase.KebabPascalRoundTrip | src/lib/stringUtils.ts:25-40 | the kebab and snake forms of the Pascal form of hyphenated lower-case words give back the words joined by `-` and by `_` |
| NameCase.DelimitedOfHyphenated | src/lib/stringUtils.ts:25-40 | hyphenated lower-case words are their own kebab form, and their snake form joins the words with `_` |
| NameCase.PascalDocExamples | src/lib/stringUtils.ts:6-20 | `blog-post` gives `BlogPost` and `blogPost` |
| NameCase.DelimitedDocExamples | src/lib/stringUtils.ts:22-47 | `BlogPost` gives `blog-post`, `blog_post` and `BLOG_POST` |
| NameCase.Pluralize | src/create_module.ts:36-40 | a final `y` becomes `ies`, a final `s` takes `es`, any other word takes `s`, the word before the ending is kept whole, and the result always ends in `s` |
| NameCase.PluralizeKeepsSnakeForm | src/create_module.ts:36-40 | a word without upper-case letters, white space or `-` keeps none, and every character but a final `y` stays in place |
| NameCase.PluralizeExamples | src/create_module.ts:36-40 | `category`, `bus` and `blog_post` give `categories`, `buses` and `blog_posts` |
| Text.SplitJoin | src/create_use_case.ts:282-284 | splitting a join gives the pieces back when no piece holds the separator's last character |
| Text.JoinSplit | src/create_use_case.ts:282-284 | joining a split gives the text back |
| BracketScan.ClosingBracket | src/create_module.ts:389-399 | the result is a `]` where the depth first returns to 0, with depth at least 1 before it; -1 exactly when the depth never returns to 0 |
| BracketScan.ClosingBracketUnique | src/create_module.ts:389-399 | any position where the depth first reaches 0 is the one the scan returns |
| BracketScan.InsertionKeepsArrayClosed | src/create_module.ts:409-412 | bracket-free text spliced in anywhere inside the array leaves it closed by the same bracket, shifted by the inserted length |
| BracketScan.NestedArraySkipped | src/create_module.ts:392-399 | a nested `[...]` is stepped over and the outer `]` is found |
| BracketScan.FlatArrayClosed | src/create_module.ts:392-399 | with no bracket before it, the first `]` closes the array |
| Patch.ImportLineOffset | src/create_module.ts:374-384 | the offset is just past the first line break after the last `import `, or 0 when there is no `import ` or no line break after it |
| Patch.InsertImportLine | src/create_module.ts:374-384 | the import line and a line break are spliced in at that offset, and cutting them out gives the original back |
| Patch.ExactArrayOpen | src/create_module.ts:387-389 | the position after the first `imports: [`, none exactly when the text does not contain it |
| Patch.PatternArrayOpen | src/create_module.ts:423-426 | the position after the leftmost match of `imports:`, white space, `[`; none exactly when nothing matches |
| Patch.SeparatorRule | src/create_module.ts:404-407 | the separator is `", "` exactly when the last visible character of the content exists and is not a comma |
| Patch.NoSeparatorAfterComma | src/create_module.ts:404-407 | content whose last character is a comma takes the next element without a separator |
| Patch.InsertIntoArray | src/create_module.ts:401-412 | no array, no closing bracket and a content already naming the module each skip, exactly in its case; the element is inserted exactly when the array is found, closed and does not name the module, and then the separator and element go just before the closing bracket |
| Patch.InsertedInsideArray | src/create_module.ts:411-412 | after the splice the array still closes, and its content is the old content followed by the inserted text |
| Patch.InsertedEntryListed | src/create_module.ts:403 | rerunning the array step on its own result skips it as already listed |
| Patch.ListedBySubstring | src/create_module.ts:403 | the listed test is a substring test: a listed longer name that contains the module name, such as `BlogPostModule` for `PostModule`, blocks the insertion |
| Patch.ArrayOpen | src/create_module.ts:387-426 | with the exact search first, the first exact `imports: [` is used when there is one (no earlier position holds one) and the regular expression otherwise |
| Patch.ArrayOpenTakesFirstExact | src/create_module.ts:387-389 | in `imports: [a] imports: [b]` the array opened at the first marker is the one edited |
| Patch.ImportAndElement | src/create_module.ts:372-412 | the array edit of the text holding the new import line: no array, no closing bracket and an array already naming the module each skip, exactly in its case; otherwise the separator and element go just before the bracket that closes the array found in that text |
| Patch.ImportSurvivesElement | src/create_module.ts:372-412 | when the import line holds no `]`, the element splice does not break it |
| Patch.Register | src/create_module.ts:366-462 | a missing file and a present guard each leave the file alone, exactly in their cases; past the guard, an inserted element means the array-edit text is written, and a skipped one means the import edit alone is written at sites that write without the element and nothing otherwise, with the skip reason |
| Patch.RegisterPlacesElement | src/create_module.ts:401-413 | past the guard, when the array is found, closed and does not name the module, the written file is the import edit with the separator and element spliced in just before the closing bracket; otherwise the import edit alone is written or nothing, according to the site |
| Patch.RegisterIdempotent | src/create_module.ts:371 | when the import line holds the guard and no `]`, a second registration stops at the guard |
| Patch.RegisterIdempotentViaEntry | src/generate_crud_use_cases.ts:765-767 | when both the import line and the element hold the guard, a second registration stops at the guard |
| Patch.RegisterListsModule | src/create_module.ts:401-413 | after an array edit the array is still closed and its content names the module |
| CreateModule.DeriveNames | src/create_module.ts:47-52 | the Pascal form has no separators, the camel form equals it up to case, the token base lowers to the snake form, and the table name ends in `s` |
| CreateModule.NamesOfCanonicalName | src/create_module.ts:47-52 | for hyphenated lower-case words each form is the expected join or capitalization of the words |
| CreateModule.BlogPostNames | src/create_module.ts:47-52 | `blog-post` gives `BlogPost`, `blogPost`, `blog-post`, `blog_post`, `BLOG_POST` and `blog_posts` |
| CreateModule.SchemaExport | src/create_module.ts:355 | the export line's module specifier is `@root/core/<kebab>/<Entity>`, closed by `";` |
| CreateModule.AppendSchemaExport | src/create_module.ts:352-363 | a missing file and an export line already present each leave the file alone, exactly in their cases, and a present file without the line is always written; the old text is kept and followed by a line break, the export line and a line break |
| CreateModule.SchemaExportIdempotent | src/create_module.ts:355-358 | a second append finds the export line and leaves the file alone |
| CreateModule.CoreImport | src/create_module.ts:369 | the import line is an `import ` statement that binds `<Entity>Module` |
| CreateModule.CoreEntry | src/create_module.ts:409 | the element starts on a new indented line, names `<Entity>Module` and ends with a comma |
| CreateModule.NextCoreEntryUnseparated | src/create_module.ts:404-409 | array content ending with an element the generator added takes the next element without `", "` |
| CreateModule.RegisterCoreModule | src/create_module.ts:366-462 | no write when the file is missing or the import line is present, exactly in those cases; a present file without the import line is written exactly when the array edit inserted the element, and then with that edit's text; otherwise nothing is written, with the edit's skip reason |
| CreateModule.CoreEntryShape | src/create_module.ts:409 | the element is bracket-free and names the module |
| CreateModule.CoreEntryInsideArray | src/create_module.ts:401-413 | after a write the array is still closed and names the module |
| CreateModule.CoreModuleIdempotent | src/create_module.ts:369-371 | a second registration stops at the import-line guard |
| CreateModule.CreateModule | src/create_module.ts:42-465 | an empty name fails with `NameRequired` and an existing `src/core/<kebab>` with `DirectoryExists`, each exactly in its case; otherwise both aggregator files are registered |
| CreateModule.CreateModuleRerunRefused | src/create_module.ts:61-63 | running again for the same name is refused because the directory now exists |
| CreateUseCase.DeriveNames | src/create_use_case.ts:19-22 | the Pascal form has no separators, the camel form equals it up to case, the kebab form has no upper case and no white space, and the token base has no lower-case letter and lowers to the snake form |
| CreateUseCase.ModuleImportOf | src/create_use_case.ts:43-50 | the module name and import path hold no white space |
| CreateUseCase.ModuleImports | src/create_use_case.ts:43-50 | one import per requested entity, in the given order |
| CreateUseCase.ImportsArrayTextRoundTrip | src/create_use_case.ts:57-58 | splitting the array text at `", "` gives back the module names in order |
| CreateUseCase.ImportStatementsRoundTrip | src/create_use_case.ts:53-55 | splitting the import statements at line breaks gives back one statement per module in order |
| CreateUseCase.NoLineBreakInStatement | src/create_use_case.ts:54 | an import statement is a single line |
| CreateUseCase.UseCaseImport | src/create_use_case.ts:181 | the import line is an `import ` statement that binds `<UseCase>Module` |
| CreateUseCase.RegisterUseCaseModule | src/create_use_case.ts:178-232 | no write exactly when the file is missing or holds the import line; otherwise it is written, with the array-edit text when the element was inserted and with the import edit alone when the array edit was skipped |
| CreateUseCase.UseCaseModuleIdempotent | src/create_use_case.ts:181-183 | a second registration stops at the import-line guard |
| CreateUseCase.UseCaseEntryInsideArray | src/create_use_case.ts:198-224 | after an array edit the array is still closed and names the module |
| CreateUseCase.RoutesImport | src/create_use_case.ts:238 | the route import is an `import ` statement whose only `;` is its last character when the names hold none, so a later import goes right after it |
| CreateUseCase.RouteLine | src/create_use_case.ts:269 | the route registration is one `mainRoutes.route(` statement ending with `;` that mentions `<camel>Routes` |
| CreateUseCase.InsertAfterLastImport | src/create_use_case.ts:242-266 | the text is unchanged exactly when there is an `import ` with no `;` after it; with no `import ` the statement is prepended; otherwise it follows the first `;` after the last `import `, on a new line |
| CreateUseCase.BeforeLastLineIsSplice | src/create_use_case.ts:281-284 | the split-splice-join fallback is a splice of the line and a line break just after the last line break |
| CreateUseCase.PlaceRoute | src/create_use_case.ts:268-286 | the route line and a blank line go just before the first `export { mainRoutes }`; without it the line goes before the last line |
| CreateUseCase.PlaceRouteHoldsLine | src/create_use_case.ts:271-286 | the placed text holds the route line |
| CreateUseCase.RegisterMainRoutes | src/create_use_case.ts:235-293 | the file is written exactly when it exists and does not mention `<camel>Routes`; a written text is the file with the import placed as `InsertAfterLastImport` states, unchanged further when it already holds the route line and otherwise with the route placed as `PlaceRoute` states, and it holds the route line |
| CreateUseCase.MainRoutesKeepsFile | src/create_use_case.ts:242-289 | a written file is the original with at most the import statement spliced in and then at most the route line spliced in, so the original text is kept around them |
| CreateUseCase.MainRoutesIdempotent | src/create_use_case.ts:238-240 | a second registration stops at the `<camel>Routes` guard |
| CreateUseCase.CreateUseCase | src/create_use_case.ts:11-296 | an empty name fails with `NameRequired` and an existing `src/use-case/<kebab>` with `DirectoryExists`, each exactly in its case; otherwise the core-module imports are those of the requested entities, in order, and both registrations run |
| CrudUseCases.Config | src/generate_crud_use_cases.ts:27-38 | the names are kept as given; the token base has no lower-case letter and lowers to the snake form of the camel name; the plural kebab is the pluralizer's result and the plural Pascal form is the Pascal form of it |
| CrudUseCases.UseCasesDistinct | src/generate_crud_use_cases.ts:72-73 | for any names, two different operations give different use-case names, module names and directories |
| CrudUseCases.ArrayBodyElements | src/generate_crud_use_cases.ts:735-741 | splitting the array text at commas and trimming gives the listed names in order, then the empty piece after the trailing comma |
| CrudUseCases.ModuleFileLists | src/generate_crud_use_cases.ts:734-742 | in a module file the bracket scan closes the `imports` array at its own `]`, and the elements between are the listed names |
| CrudUseCases.AggregatorContent | src/generate_crud_use_cases.ts:727-743 | the aggregator file starts with the imports and the export declaration, opens the module object's `imports: [` right after them and ends with `],\n});\n` |
| CrudUseCases.AggregatorArrayListsUseCases | src/generate_crud_use_cases.ts:727-743 | the aggregator's array lists exactly the Create, Update, Get, List and Delete modules, in that order |
| CrudUseCases.AggregatorExportsName | src/generate_crud_use_cases.ts:734 | the aggregator file exports `<Entity>UseCaseModule` |
| CrudUseCases.RegisterCrudUseCaseModule | src/generate_crud_use_cases.ts:750-813 | no write exactly when the file is missing or mentions `<Entity>UseCaseModule` anywhere; otherwise it is written, with the array-edit text when the name was inserted and with the import edit alone when the array edit was skipped |
| CrudUseCases.AggregatorImport | src/generate_crud_use_cases.ts:763 | the import line is an `import ` statement that binds `<Entity>UseCaseModule` |
| CrudUseCases.ImportHoldsAggregatorName | src/generate_crud_use_cases.ts:763 | the import line mentions the aggregator's name |
| CrudUseCases.CrudRegistrationIdempotent | src/generate_crud_use_cases.ts:763-767 | for every name, a second registration stops at the guard |
| CrudUseCases.RegisteredImportFindsAggregator | src/generate_crud_use_cases.ts:745-763 | the registered import path, resolved from `src/use-case/` with `.ts` added, is the aggregator file written |
| CrudUseCases.GenerateCrud | src/generate_crud_use_cases.ts:21-54 | five use-case directories under `src/use-case/<kebab>` in generation order, the aggregator path and the aggregator module's text for that configuration, and the registration |
| Skeleton.CheckProjectName | src/generate_skeleton.ts:11-23 | an empty name fails with `NameRequired` and an existing directory with `DirectoryExists`, each exactly in its case |
| Skeleton.SecondSkeletonRefused | src/generate_skeleton.ts:21-23 | a second run with the same name is refused |
| Skeleton.KeptFiles | src/generate_skeleton.ts:306 | a name is kept exactly when it is listed, ends with `.ts` and is not `index.ts` |
| Skeleton.KeptFilesAppend | src/generate_skeleton.ts:306 | filtering keeps the listing order |
| Skeleton.ReplaceFirst | src/generate_skeleton.ts:307 | without an occurrence the name is unchanged; with one, the text before the first occurrence is kept, the replacement stands where it started and the text after it follows |
| Skeleton.ExportLineAsWritten | src/generate_skeleton.ts:307 | the line as the source builds it: the name with its first `.ts` cut out, wherever that is, between `export * from './` and `';` |
| Skeleton.ModuleOf | src/generate_skeleton.ts:307 | the module name followed by `.ts` is the file name |
| Skeleton.ExportLinesAgree | src/generate_skeleton.ts:307 | when `.ts` first occurs at the end, the line as written equals the corrected line |
| Skeleton.FirstTsRemovalCorrupts | src/generate_skeleton.ts:307 | `api.tsclient.ts` is kept, but the line as written re-exports `./apiclient.ts` instead of `./api.tsclient` |
| Skeleton.ExportLines | src/generate_skeleton.ts:305-308 | the corrected lines: one per kept name, in order, each the re-export of that file's module with only the trailing `.ts` removed |
| Skeleton.ExportLinesAsWritten | src/generate_skeleton.ts:305-308 | the source's lines: one per kept name, in order, each built with the first `.ts` cut out |
| Skeleton.IndexAsWrittenAgrees | src/generate_skeleton.ts:305-308 | the index as the source builds it equals the corrected index whenever every kept name's first `.ts` is its extension |
| Skeleton.IndexAsWrittenCorrupts | src/generate_skeleton.ts:305-308 | for a listing holding `api.tsclient.ts` the index as written re-exports `./apiclient.ts`, the corrected one `./api.tsclient` |
| Skeleton.IndexEmptyIffNothingKept | src/generate_skeleton.ts:305-308 | the index, both as corrected and as the source writes it, is empty exactly when no name is kept |
| Skeleton.IndexLines | src/generate_skeleton.ts:305-308 | for the corrected index, when no kept name holds a line break, splitting it at line breaks gives one line per kept name, in order |

## Left out

- File I/O, logging and `process.cwd()`. Reads become parameters and writes become the `Outcome`. The working directory is left out and paths are relative to the project root.
- The template bodies, such as entity, repository, service, use-case, routes and end-to-end test files, and everything under `src/templates/`. They are fixed text with the names interpolated.
- `src/cli.ts`: argument dispatch and usage text.
- The npm `pluralize` package used by `generateCrudUseCases`. Its source is not part of this model, so `CrudUseCases.Config` takes the pluralizer as a function parameter. It is kept separate from the naive pluralizer of `createModule`.
- Unicode case mapping. Upper- and lower-casing change only ASCII letters, and `\w` and `\b` are ASCII as in JavaScript without the `u` flag. `\s` and `trim` use the full ECMAScript white-space set.
- String and comment awareness in the bracket scan. The source counts every `[` and `]`, and so does the model.
- `resolve(process.cwd(), projectName)` in `generateSkeleton`. The model checks the directory under the name itself.
- CreateModule.CoreModuleIdempotent: requires that the import line holds no `]`. If a name holds one, the bracket scan can stop inside the freshly inserted import line and break it.
- CreateUseCase.UseCaseModuleIdempotent: requires that the import line holds no `]`, for the same reason.
- CreateModule.DeriveNames: the ensures do not repeat the kebab and snake alphabet properties. Those are stated on `NameCase.KebabCase` and `NameCase.SnakeCase`.
- CrudUseCases.AggregatorArrayListsUseCases: requires the entity name and the Pascal plural to hold no bracket, comma or white space. Names derived by the Pascal transform have no white space by construction.
- Skeleton.ExportLines: builds the corrected line, which removes only the trailing `.ts` (see Findings). The source's line is `Skeleton.ExportLinesAsWritten`, and `Skeleton.IndexAsWrittenAgrees` states when the two agree.
- Skeleton.IndexLines: reads back the corrected index, for the same reason.
- CrudUseCases.GenerateCrud: the end-to-end test files it also writes are not modelled.
- CrudUseCases.GenerateCrud: the `srcDir` parameter (src/generate_crud_use_cases.ts:25, :40, :54) is fixed to `src` by `BaseDir`, the directory the other commands resolve (src/create_module.ts:58, src/create_use_case.ts:30); no caller of `generateCrudUseCases` is part of this model, so other roots are not modelled.

## Findings

| source | as written | input that shows it | evidently intended | confidence | as-written member | corrected member |
|---|---|---|---|---|---|---|
| src/generate_skeleton.ts:307 | `f.replace('.ts', '')` removes the first `.ts` in the file name | a file `api.tsclient.ts` gives `export * from './apiclient.ts';` | remove the trailing `.ts` extension, giving `export * from './api.tsclient';` | medium, not executed | Skeleton.FirstTsRemovalCorrupts | Skeleton.ModuleOf |

With the shipped templates this defect is not reached. `generateSkeleton` refuses an existing
target directory (src/generate_skeleton.ts:21-25), so the indexed directories hold only the
copied template files (src/generate_skeleton.ts:84-247), and each of those names has `.ts`
only at its end. The defect applies to any other name that reaches `createIndex`.

`Skeleton.ExportLineAsWritten` and `Skeleton.IndexContentAsWritten` are the
line and the index as the source computes them.
`Skeleton.IndexContent` uses the corrected `Skeleton.ExportLine`.
`Skeleton.ExportLinesAgree` and `Skeleton.IndexAsWrittenAgrees` show that the
two agree whenever every kept name's first `.ts` is its extension, and
`Skeleton.IndexAsWrittenCorrupts` lifts the counterexample to the index.
