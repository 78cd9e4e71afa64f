/**
 * `createUseCase` (src/create_use_case.ts): derive the use case's name
 * forms, refuse an empty name or an existing use-case directory, build the
 * imports of the core modules it depends on, then register the use case in
 * `src/use-case/UseCaseModule.ts` and `src/main.routes.ts`. The template
 * files themselves are not modelled.
 */
module CreateUseCase {
  import opened Wrappers
  import opened Text
  import opened NameCase
  import opened BracketScan
  import opened Patch

  /** The name forms of a use case. */
  datatype UseCaseNames = UseCaseNames(
    useCaseName: string,  // Pascal case, e.g. GetUser
    camelName: string,    // camel case, e.g. getUser
    kebabName: string,    // kebab case, e.g. get-user
    tokenBase: string)    // upper snake case, e.g. GET_USER

  function DeriveNames(raw: string): (n: UseCaseNames)
    ensures forall k :: 0 <= k < |n.useCaseName| ==> !IsWordSeparator(n.useCaseName[k])
    ensures LowerAll(n.camelName) == LowerAll(n.useCaseName)
    ensures forall k :: 0 <= k < |n.kebabName| ==> !IsUpper(n.kebabName[k]) && !IsSpace(n.kebabName[k])
    ensures LowerAll(n.tokenBase) == SnakeCase(raw)
    ensures forall k :: 0 <= k < |n.tokenBase| ==> !IsLower(n.tokenBase[k])
  {
    CamelAgreesWithPascal(raw);
    UpperSnakeLowersToSnake(raw);
    var n := UseCaseNames(PascalCase(raw), CamelCase(raw), KebabCase(raw), UpperSnakeCase(raw));
    assert LowerAll(n.tokenBase) == SnakeCase(raw);
    n
  }

  /** The use-case directory, relative to the project root. */
  function TargetDir(n: UseCaseNames): string
  {
    "src/use-case/" + n.kebabName
  }

  // ------------------------------------------------- core-module imports

  /** One core module the use case imports. */
  datatype ModuleImport = ModuleImport(moduleName: string, importPath: string)

  function ModuleImportOf(entity: string): (m: ModuleImport)
    ensures Unspaced(m.moduleName) && Unspaced(m.importPath)
  {
    var pascal := PascalCase(entity);
    var kebab := KebabCase(entity);
    assert Unspaced(pascal) && Unspaced(kebab);
    assert Unspaced("Module") && Unspaced("@root/core/") && Unspaced("/");
    UnspacedAppend(pascal, "Module");
    UnspacedAppend("@root/core/", kebab);
    UnspacedAppend("@root/core/" + kebab, "/");
    UnspacedAppend("@root/core/" + kebab + "/", pascal + "Module");
    assert "@root/core/" + kebab + "/" + pascal + "Module" == "@root/core/" + kebab + "/" + (pascal + "Module");
    ModuleImport(pascal + "Module", "@root/core/" + kebab + "/" + pascal + "Module")
  }

  function ModuleImports(entities: seq<string>): (r: seq<ModuleImport>)
    ensures |r| == |entities|
    ensures forall k :: 0 <= k < |r| ==> r[k] == ModuleImportOf(entities[k])
  {
    seq(|entities|, k requires 0 <= k < |entities| => ModuleImportOf(entities[k]))
  }

  function ImportStatementOf(m: ModuleImport): string
  {
    "import { " + m.moduleName + " } from '" + m.importPath + "';"
  }

  /** The import lines of the generated module file, one per core module. */
  function ImportStatements(ms: seq<ModuleImport>): string
  {
    Join(seq(|ms|, k requires 0 <= k < |ms| => ImportStatementOf(ms[k])), "\n")
  }

  function ModuleNames(ms: seq<ModuleImport>): (r: seq<string>)
    ensures |r| == |ms|
    ensures forall k :: 0 <= k < |r| ==> r[k] == ms[k].moduleName
  {
    seq(|ms|, k requires 0 <= k < |ms| => ms[k].moduleName)
  }

  /** The text between the brackets of the generated `imports: [...]`. */
  function ImportsArrayText(ms: seq<ModuleImport>): string
  {
    Join(ModuleNames(ms), ", ")
  }

  /**
   * The array text lists the modules in the order given, and nothing else:
   * splitting it at `", "` gives back the module names, because no module
   * name holds a space.
   */
  lemma ImportsArrayTextRoundTrip(entities: seq<string>)
    requires |entities| > 0
    ensures Split(ImportsArrayText(ModuleImports(entities)), ", ") == ModuleNames(ModuleImports(entities))
  {
    var names := ModuleNames(ModuleImports(entities));
    forall k | 0 <= k < |names| ensures SeparableBy(names[k], ", ") {
      assert IsSpace(' ') && Unspaced(names[k]);
      assert forall j :: 0 <= j < |names[k]| ==> names[k][j] != ' ';
    }
    SplitJoin(names, ", ");
  }

  /** Each import statement is one line: splitting at line breaks gives the statements back, in order. */
  lemma ImportStatementsRoundTrip(entities: seq<string>)
    requires |entities| > 0
    ensures var ms := ModuleImports(entities);
            Split(ImportStatements(ms), "\n") == seq(|ms|, k requires 0 <= k < |ms| => ImportStatementOf(ms[k]))
  {
    var ms := ModuleImports(entities);
    var lines := seq(|ms|, k requires 0 <= k < |ms| => ImportStatementOf(ms[k]));
    forall k | 0 <= k < |lines| ensures SeparableBy(lines[k], "\n") {
      NoLineBreakInStatement(ms[k]);
    }
    SplitJoin(lines, "\n");
  }

  lemma NoLineBreakInStatement(m: ModuleImport)
    requires Unspaced(m.moduleName) && Unspaced(m.importPath)
    ensures '\n' !in ImportStatementOf(m)
  {
  }

  // ------------------------------------------------------ UseCaseModule.ts

  /**
   * The import line for the use case's module: an `import ` statement
   * binding the module the array element names, from the use case's
   * directory.
   */
  function UseCaseImport(n: UseCaseNames): (r: string)
    ensures IsAt(r, ImportToken, 0)
    ensures IsAt(r, n.useCaseName + "Module", |"import { "|)
  {
    var m := n.useCaseName + "Module";
    var tail := " } from './" + n.kebabName + "/" + n.useCaseName + "';";
    var r := "import { " + m + tail;
    assert IsAt(r, r, 0);
    OccurrenceOfMiddle(r, "import { ", m, tail, 0);
    assert r[..7] == ImportToken;
    r
  }

  /**
   * The `UseCaseModule.ts` site: the guard is the import line itself, the
   * array is located by the regular expression alone, the element is the
   * bare module name, and the file is written even when the array edit did
   * not happen.
   */
  function UseCaseSite(n: UseCaseNames): Site
  {
    Site(UseCaseImport(n), UseCaseImport(n), n.useCaseName + "Module", n.useCaseName + "Module", false, true)
  }

  /**
   * Register the use case in `UseCaseModule.ts`. Unless the import line is
   * already there, it is added after the last import line and the module is
   * appended to the array; unlike the core registration the file is written
   * whenever the guard passes, with the new import line alone if the array
   * was missing, unclosed or already named the module.
   */
  function RegisterUseCaseModule(file: Option<string>, n: UseCaseNames): (o: Outcome)
    ensures file.None? <==> o == NotWritten(FileMissing)
    ensures file.Some? ==> (o.Written? <==> !Contains(file.value, UseCaseImport(n)))
    ensures o.NotWritten? ==> o.reason == FileMissing || o.reason == AlreadyRegistered
    ensures o.Written? ==>
              var c1 := WithImport(file.value, UseCaseImport(n));
              var entry := n.useCaseName + "Module";
              || o.text == c1
              || SplicedFrom(o.text, c1, ", " + entry)
              || SplicedFrom(o.text, c1, entry)
    ensures o.Written? ==>
              var name := n.useCaseName + "Module";
              var e := ImportAndElement(file.value, UseCaseImport(n), name, name, false);
              o.text == (if e.Inserted? then e.text else WithImport(file.value, UseCaseImport(n)))
  {
    Register(file, UseCaseSite(n))
  }

  /**
   * Registration is idempotent: the written file holds the import line, so
   * a second run stops at the guard (given no closing bracket in the import
   * line, as for the core module).
   */
  lemma UseCaseModuleIdempotent(c: string, n: UseCaseNames)
    requires ']' !in UseCaseImport(n)
    requires RegisterUseCaseModule(Some(c), n).Written?
    ensures RegisterUseCaseModule(Some(RegisterUseCaseModule(Some(c), n).text), n) == NotWritten(AlreadyRegistered)
  {
    var s := UseCaseSite(n);
    ContainsItself(s.imp);
    RegisterIdempotent(c, s);
  }

  /** When the array edit happens, the module is listed inside the array. */
  lemma UseCaseEntryInsideArray(c: string, n: UseCaseNames)
    requires '[' !in n.useCaseName && ']' !in n.useCaseName
    requires !Contains(c, UseCaseImport(n))
    requires var name := n.useCaseName + "Module";
             ImportAndElement(c, UseCaseImport(n), name, name, false).Inserted?
    ensures var t := RegisterUseCaseModule(Some(c), n).text;
            var start := ArrayOpen(WithImport(c, UseCaseImport(n)), false).value;
            ArrayLists(t, start, n.useCaseName + "Module")
  {
    var s := UseCaseSite(n);
    ContainsItself(s.name);
    ModuleNameBracketFree(n.useCaseName);
    RegisterListsModule(c, s);
  }

  // ---------------------------------------------------------- main.routes

  /**
   * The multi-line import of the route and its path: an `import `
   * statement that ends with its only `;`, so the next registration's
   * import goes right after it.
   */
  function RoutesImport(n: UseCaseNames): (r: string)
    ensures IsAt(r, ImportToken, 0)
    ensures ';' !in n.camelName + n.kebabName ==> ';' !in r[..|r| - 1] && r[|r| - 1] == ';'
  {
    var x := n.camelName;
    var body := RoutesImportBody(x, n.kebabName);
    var r := ImportToken + body + ";";
    StartsWithHead(ImportToken, body + ";");
    assert r == ImportToken + (body + ";");
    assert r[..|r| - 1] == ImportToken + body;
    if ';' in x + n.kebabName then r
    else
      RoutesImportBodyUnbroken(x, n.kebabName);
      r
  }

  /** The import statement after `import ` and before its `;`. */
  function RoutesImportBody(x: string, kebab: string): string
  {
    "{\n  " + x + "Routes,\n  " + x + "RoutesPath,\n} from './use-case/" + kebab + "/" + x + "Routes'"
  }

  lemma RoutesImportBodyUnbroken(x: string, kebab: string)
    requires ';' !in x + kebab
    ensures ';' !in RoutesImportBody(x, kebab)
  {
    assert ';' !in x && ';' !in kebab;
  }

  /** The route registration: it mounts the route under its path, in one statement. */
  function RouteLine(n: UseCaseNames): (r: string)
    ensures IsAt(r, "mainRoutes.route(", 0) && r[|r| - 1] == ';'
    ensures Contains(r, n.camelName + "Routes")
  {
    var x := n.camelName;
    var a := "mainRoutes.route(" + x + "RoutesPath, ";
    var r := a + (x + "Routes") + ");";
    assert IsAt(r, r, 0);
    OccurrenceOfMiddle(r, a, x + "Routes", ");", 0);
    OccurrenceIsContained(r, x + "Routes", |a|);
    assert r[..17] == "mainRoutes.route(";
    r
  }

  const ExportAnchor := "export { mainRoutes }"

  /**
   * Put the (possibly multi-line) import statement after the end of the
   * last import: right after the first `;` at or after the last `import `,
   * on a new line. Without any `import ` it is prepended; with no `;` after
   * the last one it is silently dropped.
   */
  function InsertAfterLastImport(c: string, imp: string): (r: string)
    ensures r == c <==> LastIndexOf(c, ImportToken) >= 0 && ';' !in c[LastIndexOf(c, ImportToken)..]
    ensures LastIndexOf(c, ImportToken) == -1 ==> r == Splice(c, 0, imp + "\n")
    ensures LastIndexOf(c, ImportToken) >= 0 && r != c ==>
              exists semi :: FirstSemicolonFrom(c, LastIndexOf(c, ImportToken), semi)
                             && r == Splice(c, semi + 1, "\n" + imp)
  {
    var last := LastIndexOf(c, ImportToken);
    if last == -1 then Splice(c, 0, imp + "\n")
    else
      var semi := IndexOf(c, ";", last);
      SemicolonSearch(c, last);
      if semi == -1 then c
      else Splice(c, semi + 1, "\n" + imp)
  }

  /** What the search for `;` from `i` finds: the first one, or that there is none. */
  lemma SemicolonSearch(c: string, i: nat)
    requires i <= |c|
    ensures var semi := IndexOf(c, ";", i);
            (semi == -1 <==> ';' !in c[i..]) && (semi >= 0 ==> FirstSemicolonFrom(c, i, semi))
  {
    var semi := IndexOf(c, ";", i);
    if semi == -1 {
      NoSemicolonFrom(c, i);
    } else {
      SemicolonFoundAt(c, i, semi);
    }
  }

  lemma NoSemicolonFrom(c: string, i: nat)
    requires i <= |c| && IndexOf(c, ";", i) == -1
    ensures ';' !in c[i..]
  {
    NoSemicolonUntil(c, i, |c|);
    assert c[i..|c|] == c[i..];
  }

  lemma SemicolonFoundAt(c: string, i: nat, semi: int)
    requires i <= |c| && semi == IndexOf(c, ";", i) && semi >= 0
    ensures ';' in c[i..] && FirstSemicolonFrom(c, i, semi)
  {
    assert i <= semi && IsAt(c, ";", semi);
    NoSemicolonUntil(c, i, semi);
    assert c[semi..semi + 1] == ";";
    assert c[i..][semi - i] == ';';
  }

  lemma NoSemicolonUntil(c: string, i: nat, end: nat)
    requires i <= end <= |c| && forall j :: i <= j < end ==> !IsAt(c, ";", j)
    ensures ';' !in c[i..end]
  {
    forall j | i <= j < end ensures c[j] != ';' {
      assert !IsAt(c, ";", j);
      assert c[j..j + 1] == [c[j]];
    }
  }

  /** `semi` is the first `;` at or after `i`: where an import statement starting at `i` ends. */
  predicate FirstSemicolonFrom(c: string, i: int, semi: int)
  {
    0 <= i <= semi < |c| && c[semi] == ';' && ';' !in c[i..semi]
  }

  /** `lines.splice(lines.length - 1, 0, line)` on `content.split('\n')`, joined back. */
  function BeforeLastLine(c: string, line: string): string
  {
    var lines := Split(c, "\n");
    Join(lines[..|lines| - 1] + [line] + lines[|lines| - 1..], "\n")
  }

  /** The split-splice-join fallback is one splice: the line goes in after the last line break, or in front. */
  lemma BeforeLastLineIsSplice(c: string, line: string)
    ensures BeforeLastLine(c, line) == Splice(c, LastIndexOf(c, "\n") + 1, line + "\n")
  {
    var lines := Split(c, "\n");
    JoinSplit(c, "\n");
    SplitPiecesFree(c, "\n");
    var last := lines[|lines| - 1];
    assert !Contains(last, "\n");
    if |lines| == 1 {
      BeforeOnlyLine(c, line, lines);
    } else {
      BeforeLastOfSeveral(c, line, lines);
    }
  }

  lemma BeforeOnlyLine(c: string, line: string, lines: seq<string>)
    requires lines == Split(c, "\n") && |lines| == 1
    requires Join(lines, "\n") == c && !Contains(lines[0], "\n")
    ensures BeforeLastLine(c, line) == Splice(c, LastIndexOf(c, "\n") + 1, line + "\n")
  {
    assert c == lines[0];
    assert LastIndexOf(c, "\n") == -1 by {
      if LastIndexOf(c, "\n") >= 0 {
        OccurrenceIsContained(c, "\n", LastIndexOf(c, "\n"));
      }
    }
    assert lines[..0] + [line] + lines[0..] == [line] + [c];
    JoinCons(line, [c], "\n");
  }

  lemma BeforeLastOfSeveral(c: string, line: string, lines: seq<string>)
    requires lines == Split(c, "\n") && |lines| > 1
    requires Join(lines, "\n") == c && !Contains(lines[|lines| - 1], "\n")
    ensures BeforeLastLine(c, line) == Splice(c, LastIndexOf(c, "\n") + 1, line + "\n")
  {
    var n := |lines|;
    var last := lines[n - 1];
    var init := lines[..n - 1];
    assert lines == init + [last];
    JoinAppend(init, [last], "\n");
    var p := Join(init, "\n");
    LastLineBreak(p, last, c);
    assert lines[..n - 1] + [line] + lines[n - 1..] == init + [line] + [last];
    JoinAppend(init + [line], [last], "\n");
    JoinAppend(init, [line], "\n");
    SpliceAfterBreak(p, last, line);
  }

  lemma SpliceAfterBreak(p: string, last: string, line: string)
    ensures Splice(p + "\n" + last, |p| + 1, line + "\n") == p + "\n" + line + "\n" + last
  {
    var c := p + "\n" + last;
    assert c[..|p| + 1] == p + "\n";
    assert c[|p| + 1..] == last;
  }

  lemma LastLineBreak(p: string, last: string, c: string)
    requires c == p + "\n" + last && !Contains(last, "\n")
    ensures LastIndexOf(c, "\n") == |p|
  {
    assert IsAt(c, "\n", |p|);
    forall j | |p| < j && IsAt(c, "\n", j) ensures false {
      assert c[j..j + 1] == last[j - |p| - 1..j - |p|];
      OccurrenceIsContained(last, "\n", j - |p| - 1);
    }
  }

  /** Add the route line before `export { mainRoutes }`, or failing that before the last line. */
  function PlaceRoute(c: string, reg: string): (r: string)
    ensures Contains(c, ExportAnchor) ==> r == Splice(c, IndexOf(c, ExportAnchor, 0), reg + "\n\n")
    ensures !Contains(c, ExportAnchor) ==> r == Splice(c, LastIndexOf(c, "\n") + 1, reg + "\n")
  {
    ContainsIffFound(c, ExportAnchor);
    var e := IndexOf(c, ExportAnchor, 0);
    if e >= 0 then Splice(c, e, reg + "\n\n")
    else
      BeforeLastLineIsSplice(c, reg);
      BeforeLastLine(c, reg)
  }

  lemma PlaceRouteHoldsLine(c: string, reg: string)
    ensures Contains(PlaceRoute(c, reg), reg)
  {
    if Contains(c, ExportAnchor) {
      SplicedLineHeld(c, IndexOf(c, ExportAnchor, 0), reg, "\n\n");
    } else {
      SplicedLineHeld(c, LastIndexOf(c, "\n") + 1, reg, "\n");
    }
  }

  /** A splice of a line and its ending leaves the line in the text. */
  lemma SplicedLineHeld(c: string, q: nat, line: string, ending: string)
    requires q <= |c|
    ensures Contains(Splice(c, q, line + ending), line)
  {
    SplicedHeadAt(c, q, line, ending);
    OccurrenceIsContained(Splice(c, q, line + ending), line, q);
  }

  /**
   * Register the use case's routes in `main.routes.ts`. The guard is the
   * bare `<camel>Routes`; past it the import goes after the last import
   * statement, the route line is added unless already present, and the
   * file is always written.
   */
  function RegisterMainRoutes(file: Option<string>, n: UseCaseNames): (o: Outcome)
    ensures file.None? <==> o == NotWritten(FileMissing)
    ensures file.Some? ==> (o.Written? <==> !Contains(file.value, n.camelName + "Routes"))
    ensures o.NotWritten? ==> o.reason == FileMissing || o.reason == AlreadyRegistered
    ensures o.Written? ==> Contains(o.text, RouteLine(n))
    ensures o.Written? ==>
              var c1 := InsertAfterLastImport(file.value, RoutesImport(n));
              o.text == (if Contains(c1, RouteLine(n)) then c1 else PlaceRoute(c1, RouteLine(n)))
  {
    match file
    case None => NotWritten(FileMissing)
    case Some(c) =>
      if Contains(c, n.camelName + "Routes") then NotWritten(AlreadyRegistered)
      else
        var c1 := InsertAfterLastImport(c, RoutesImport(n));
        var reg := RouteLine(n);
        if Contains(c1, reg) then Written(c1)
        else
          PlaceRouteHoldsLine(c1, reg);
          Written(PlaceRoute(c1, reg))
  }

  /**
   * The written file keeps the original text: it is the original with at
   * most the import statement spliced in (or nothing, when it was dropped)
   * and then at most the route line spliced in (nothing when it was
   * already there).
   */
  lemma MainRoutesKeepsFile(c: string, n: UseCaseNames)
    requires RegisterMainRoutes(Some(c), n).Written?
    ensures var t := RegisterMainRoutes(Some(c), n).text;
            var c1 := InsertAfterLastImport(c, RoutesImport(n));
            && (c1 == c || SplicedFrom(c1, c, RoutesImport(n) + "\n") || SplicedFrom(c1, c, "\n" + RoutesImport(n)))
            && (t == c1 || SplicedFrom(t, c1, RouteLine(n) + "\n\n") || SplicedFrom(t, c1, RouteLine(n) + "\n"))
  {
    var imp := RoutesImport(n);
    var reg := RouteLine(n);
    ImportSplicedFrom(c, imp);
    var c1 := InsertAfterLastImport(c, imp);
    if !Contains(c1, reg) {
      RouteSplicedFrom(c1, reg);
    }
  }

  /** The import statement is spliced in somewhere, or the text is left alone. */
  lemma ImportSplicedFrom(c: string, imp: string)
    ensures var c1 := InsertAfterLastImport(c, imp);
            c1 == c || SplicedFrom(c1, c, imp + "\n") || SplicedFrom(c1, c, "\n" + imp)
  {
    var c1 := InsertAfterLastImport(c, imp);
    var last := LastIndexOf(c, ImportToken);
    if last == -1 {
      assert SplicedFrom(c1, c, imp + "\n");
    } else if c1 != c {
      var semi :| FirstSemicolonFrom(c, last, semi) && c1 == Splice(c, semi + 1, "\n" + imp);
      assert SplicedFrom(c1, c, "\n" + imp);
    }
  }

  /** The route line is spliced in somewhere, with one or two line breaks after it. */
  lemma RouteSplicedFrom(c: string, reg: string)
    ensures var r := PlaceRoute(c, reg);
            SplicedFrom(r, c, reg + "\n\n") || SplicedFrom(r, c, reg + "\n")
  {
    var r := PlaceRoute(c, reg);
    if Contains(c, ExportAnchor) {
      ContainsIffFound(c, ExportAnchor);
      assert SplicedFrom(r, c, reg + "\n\n");
    } else {
      assert SplicedFrom(r, c, reg + "\n");
    }
  }

  /** Route registration is idempotent: the written file holds the route line, so a second run stops at the guard. */
  lemma MainRoutesIdempotent(c: string, n: UseCaseNames)
    requires RegisterMainRoutes(Some(c), n).Written?
    ensures RegisterMainRoutes(Some(RegisterMainRoutes(Some(c), n).text), n) == NotWritten(AlreadyRegistered)
  {
    ContainedTransitively(RegisterMainRoutes(Some(c), n).text, RouteLine(n), n.camelName + "Routes");
  }

  // ------------------------------------------------------------ the command

  /** What a successful `createUseCase` did. */
  datatype UseCaseRun = UseCaseRun(
    names: UseCaseNames,
    targetDir: string,
    moduleImports: seq<ModuleImport>,
    useCaseModule: Outcome,
    mainRoutes: Outcome)

  /**
   * `createUseCase(rawName, imports)`: an empty name and an existing
   * use-case directory are refused before anything is written; otherwise
   * the core-module imports are built and both aggregator files registered.
   */
  function CreateUseCase(raw: string, imports: seq<string>, existing: set<string>,
                         useCaseModuleFile: Option<string>, mainRoutesFile: Option<string>)
    : (r: Result<UseCaseRun, GenError>)
    ensures r == Failure(NameRequired) <==> raw == ""
    ensures r.Failure? && r.error.DirectoryExists? <==> raw != "" && TargetDir(DeriveNames(raw)) in existing
    ensures r.Success? ==> r.value.names == DeriveNames(raw) && r.value.targetDir !in existing
    ensures r.Success? ==> r.value.moduleImports == ModuleImports(imports)
    ensures r.Success? ==> r.value.useCaseModule == RegisterUseCaseModule(useCaseModuleFile, r.value.names)
    ensures r.Success? ==> r.value.mainRoutes == RegisterMainRoutes(mainRoutesFile, r.value.names)
  {
    if raw == "" then Failure(NameRequired)
    else
      var n := DeriveNames(raw);
      var dir := TargetDir(n);
      if dir in existing then Failure(DirectoryExists(dir))
      else
        Success(UseCaseRun(n, dir, ModuleImports(imports),
                           RegisterUseCaseModule(useCaseModuleFile, n),
                           RegisterMainRoutes(mainRoutesFile, n)))
  }
}
