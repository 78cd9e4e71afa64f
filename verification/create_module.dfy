/**
 * `createModule` (src/create_module.ts): derive the entity's name forms,
 * refuse an empty name or an existing module directory, then register the
 * new module in `src/schema.ts` and `src/core/CoreModule.ts`. The template
 * files written into the new directory are not modelled; each aggregator
 * file is `None` when it does not exist and `Some(text)` otherwise.
 */
module CreateModule {
  import opened Wrappers
  import opened Text
  import opened NameCase
  import opened BracketScan
  import opened Patch

  /** The name forms one entity is known by. */
  datatype EntityNames = EntityNames(
    entityName: string,  // Pascal case: class and file names
    camelName: string,   // camel case: variables
    kebabName: string,   // kebab case: directories and import paths
    snakeName: string,   // snake case
    tokenBase: string,   // upper snake case: injection tokens
    tableName: string)   // the pluralized snake form: the database table

  /** All name forms of a raw entity name. */
  function DeriveNames(raw: string): (n: EntityNames)
    ensures forall k :: 0 <= k < |n.entityName| ==> !IsWordSeparator(n.entityName[k])
    ensures LowerAll(n.camelName) == LowerAll(n.entityName)
    ensures LowerAll(n.tokenBase) == n.snakeName
    ensures |n.tableName| > 0 && n.tableName[|n.tableName| - 1] == 's'
  {
    CamelAgreesWithPascal(raw);
    UpperSnakeLowersToSnake(raw);
    var n := EntityNames(PascalCase(raw), CamelCase(raw), KebabCase(raw), SnakeCase(raw),
                         UpperSnakeCase(raw), Pluralize(SnakeCase(raw)));
    assert LowerAll(n.camelName) == LowerAll(n.entityName);
    assert LowerAll(n.tokenBase) == n.snakeName;
    n
  }

  /**
   * For a canonical kebab name (lower-case words of two letters or more
   * joined by hyphens) the forms are the expected ones: the words
   * capitalized and concatenated, the name itself, the words joined by
   * underscores, that upper-cased, and its plural.
   */
  lemma NamesOfCanonicalName(ws: seq<string>)
    requires |ws| > 0 && AllLowerWords(ws)
    ensures var n := DeriveNames(Join(ws, "-"));
            && n.entityName == PascalWords(ws)
            && n.kebabName == Join(ws, "-")
            && n.snakeName == Join(ws, "_")
            && n.tokenBase == UpperAll(Join(ws, "_"))
            && n.tableName == Pluralize(Join(ws, "_"))
  {
    PascalOfHyphenated(ws);
    DelimitedOfHyphenated(ws);
  }

  /** The example in the source's comments: `blog-post`. */
  lemma BlogPostNames()
    ensures DeriveNames("blog-post") ==
            EntityNames("BlogPost", "blogPost", "blog-post", "blog_post", "BLOG_POST", "blog_posts")
  {
    BlogPostWords();
    NamesOfCanonicalName(["blog", "post"]);
    PascalDocExamples();
    BlogPostToken();
  }

  lemma BlogPostToken()
    ensures UpperAll("blog_post") == "BLOG_POST"
  {
    assert UpperAll("blog_post") == "BLOG_POST";
  }

  /** The module directory, relative to the project root. */
  function TargetDir(n: EntityNames): string
  {
    "src/core/" + n.kebabName
  }

  // ------------------------------------------------------------- schema.ts

  const SchemaHead := "export * from \"@root/core/"

  /**
   * The barrel line that re-exports the entity's schema: its module
   * specifier is the entity's file in the module directory, the `src/`
   * prefix written as the `@root/` alias.
   */
  function SchemaExport(n: EntityNames): (r: string)
    ensures IsAt(r, SchemaHead, 0)
    ensures IsAt(r, n.kebabName + "/" + n.entityName + "\";", |SchemaHead|)
    ensures |r| == |SchemaHead| + |n.kebabName| + |n.entityName| + 3
  {
    var spec := n.kebabName + "/" + n.entityName + "\";";
    var r := SchemaHead + spec;
    StartsWithHead(SchemaHead, spec);
    assert r[|SchemaHead|..] == spec;
    r
  }

  /** Append the export line, on a line of its own, unless the file already holds it. */
  function AppendSchemaExport(file: Option<string>, stmt: string): (o: Outcome)
    ensures file.None? <==> o == NotWritten(FileMissing)
    ensures file.Some? ==> (o == NotWritten(AlreadyRegistered) <==> Contains(file.value, stmt))
    ensures o.Written? ==> file.Some? && |o.text| == |file.value| + |stmt| + 2
    ensures o.Written? ==> o.text[..|file.value|] == file.value
    ensures o.Written? ==> IsAt(o.text, "\n" + stmt + "\n", |file.value|)
    ensures file.Some? ==> (o.Written? <==> !Contains(file.value, stmt))
  {
    match file
    case None => NotWritten(FileMissing)
    case Some(c) =>
      if Contains(c, stmt) then NotWritten(AlreadyRegistered)
      else
        var t := c + ("\n" + stmt + "\n");
        assert t[|c|..|c| + |stmt| + 2] == "\n" + stmt + "\n";
        Written(t)
  }

  /** Appending is idempotent: a second run finds the line and leaves the file alone. */
  lemma SchemaExportIdempotent(c: string, stmt: string)
    requires AppendSchemaExport(Some(c), stmt).Written?
    ensures AppendSchemaExport(Some(AppendSchemaExport(Some(c), stmt).text), stmt)
            == NotWritten(AlreadyRegistered)
  {
    var t := AppendSchemaExport(Some(c), stmt).text;
    OccurrenceOfMiddle(t, "\n", stmt, "\n", |c|);
    OccurrenceIsContained(t, stmt, |c| + 1);
  }

  // --------------------------------------------------------- CoreModule.ts

  /**
   * The import line for the entity's module: an `import ` statement, so a
   * later registration puts its own line after it, binding the module the
   * array element names.
   */
  function CoreImport(n: EntityNames): (r: string)
    ensures IsAt(r, ImportToken, 0)
    ensures IsAt(r, n.entityName + "Module", |"import { "|)
  {
    var m := n.entityName + "Module";
    var tail := " } from './" + n.kebabName + "/" + m + "';";
    var r := "import { " + m + tail;
    assert r == "import { " + m + tail;
    assert IsAt(r, r, 0);
    OccurrenceOfMiddle(r, "import { ", m, tail, 0);
    assert r[..7] == ImportToken;
    r
  }

  /**
   * The array element: on its own line, indented, naming the module and
   * ending with a comma, so the next element needs no separator.
   */
  function CoreEntry(n: EntityNames): (r: string)
    ensures IsAt(r, n.entityName + "Module", 5)
    ensures r[..5] == "\n    " && r[|r| - 1] == ','
  {
    var m := n.entityName + "Module";
    var r := "\n    " + m + ",";
    assert IsAt(r, r, 0);
    OccurrenceOfMiddle(r, "\n    ", m, ",", 0);
    r
  }

  /**
   * An array whose content ends with an element the generator added takes
   * the next core module without a separator.
   */
  lemma NextCoreEntryUnseparated(content: string, n: EntityNames)
    ensures Separator(content + CoreEntry(n)) == ""
  {
    var c := content + CoreEntry(n);
    assert c[|c| - 1] == ',';
    NoSeparatorAfterComma(c);
  }

  /**
   * The `CoreModule.ts` site: the guard is the import line itself, the
   * array is located by exact search for `imports: [` and by the regular
   * expression only when that fails, and nothing is written unless the
   * array edit succeeded.
   */
  function CoreSite(n: EntityNames): Site
  {
    Site(CoreImport(n), CoreImport(n), n.entityName + "Module", CoreEntry(n), true, false)
  }

  /**
   * Register the module in `CoreModule.ts`. Unless the import line is
   * already there, it is added after the last import line and the module
   * is appended to the `imports` array. The file is written only when the
   * array edit succeeded, so a missing or unclosed array, or an array that
   * already names the module, discards the new import line too.
   */
  function RegisterCoreModule(file: Option<string>, n: EntityNames): (o: Outcome)
    ensures file.None? <==> o == NotWritten(FileMissing)
    ensures file.Some? ==> (o == NotWritten(AlreadyRegistered) <==> Contains(file.value, CoreImport(n)))
    ensures o.Written? ==> file.Some? && !Contains(file.value, CoreImport(n))
    ensures o.Written? ==>
              var c1 := WithImport(file.value, CoreImport(n));
              SplicedFrom(o.text, c1, ", " + CoreEntry(n)) || SplicedFrom(o.text, c1, CoreEntry(n))
    ensures file.Some? ==>
              var e := ImportAndElement(file.value, CoreImport(n), n.entityName + "Module", CoreEntry(n), true);
              (o.Written? <==> !Contains(file.value, CoreImport(n)) && e.Inserted?)
    ensures file.Some? && !Contains(file.value, CoreImport(n)) ==>
              var e := ImportAndElement(file.value, CoreImport(n), n.entityName + "Module", CoreEntry(n), true);
              o == (if e.Inserted? then Written(e.text) else NotWritten(e.reason))
  {
    Register(file, CoreSite(n))
  }

  /** The entry names the module and holds no bracket. */
  lemma CoreEntryShape(n: EntityNames)
    requires '[' !in n.entityName && ']' !in n.entityName
    ensures BracketFree(CoreEntry(n)) && Contains(CoreEntry(n), n.entityName + "Module")
  {
    OccurrenceOfMiddle(CoreEntry(n), "\n    ", n.entityName + "Module", ",", 0);
  }

  /**
   * After a successful registration the module is listed inside the array:
   * the array that opened at the same place is still closed, by the shifted
   * bracket, and its content now names the module.
   */
  lemma CoreEntryInsideArray(c: string, n: EntityNames)
    requires '[' !in n.entityName && ']' !in n.entityName
    requires RegisterCoreModule(Some(c), n).Written?
    ensures var t := RegisterCoreModule(Some(c), n).text;
            var start := ArrayOpen(WithImport(c, CoreImport(n)), true).value;
            ArrayLists(t, start, n.entityName + "Module")
  {
    CoreEntryShape(n);
    RegisterListsModule(c, CoreSite(n));
  }

  /**
   * Registration is idempotent: once written, the file holds the import
   * line, so a second run stops at the guard. The import line must not
   * hold a closing bracket, or the array's own `]` could fall inside it.
   */
  lemma CoreModuleIdempotent(c: string, n: EntityNames)
    requires ']' !in CoreImport(n)
    requires RegisterCoreModule(Some(c), n).Written?
    ensures RegisterCoreModule(Some(RegisterCoreModule(Some(c), n).text), n) == NotWritten(AlreadyRegistered)
  {
    var s := CoreSite(n);
    ContainsItself(s.imp);
    RegisterIdempotent(c, s);
  }

  // ------------------------------------------------------------ the command

  /** What a successful `createModule` did. */
  datatype ModuleRun = ModuleRun(names: EntityNames, targetDir: string, schema: Outcome, coreModule: Outcome)

  /**
   * `createModule(rawName)`: an empty name and an existing module
   * directory are refused before anything is written; otherwise the
   * directory is created and both aggregator files are registered.
   * `existing` holds the directories present beforehand, relative to the
   * project root.
   */
  function CreateModule(raw: string, existing: set<string>, schemaFile: Option<string>, coreModuleFile: Option<string>)
    : (r: Result<ModuleRun, GenError>)
    ensures r == Failure(NameRequired) <==> raw == ""
    ensures r.Failure? && r.error.DirectoryExists? <==> raw != "" && TargetDir(DeriveNames(raw)) in existing
    ensures r.Success? ==> r.value.names == DeriveNames(raw) && r.value.targetDir !in existing
    ensures r.Success? ==> r.value.targetDir == "src/core/" + r.value.names.kebabName
    ensures r.Success? ==> r.value.schema == AppendSchemaExport(schemaFile, SchemaExport(r.value.names))
    ensures r.Success? ==> r.value.coreModule == RegisterCoreModule(coreModuleFile, r.value.names)
  {
    if raw == "" then Failure(NameRequired)
    else
      var n := DeriveNames(raw);
      var dir := TargetDir(n);
      if dir in existing then Failure(DirectoryExists(dir))
      else
        Success(ModuleRun(n, dir, AppendSchemaExport(schemaFile, SchemaExport(n)),
                          RegisterCoreModule(coreModuleFile, n)))
  }

  /** Running the command again for the same name is refused: the directory now exists. */
  lemma CreateModuleRerunRefused(raw: string, existing: set<string>, schemaFile: Option<string>, coreModuleFile: Option<string>,
                                 schemaFile': Option<string>, coreModuleFile': Option<string>)
    requires CreateModule(raw, existing, schemaFile, coreModuleFile).Success?
    ensures var dir := CreateModule(raw, existing, schemaFile, coreModuleFile).value.targetDir;
            CreateModule(raw, existing + {dir}, schemaFile', coreModuleFile') == Failure(DirectoryExists(dir))
  {
  }
}
