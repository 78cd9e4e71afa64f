/**
 * `generateCrudUseCases` (src/generate_crud_use_cases.ts): the naming of
 * the five CRUD use cases, the aggregator module that gathers them, and its
 * registration in `src/use-case/UseCaseModule.ts`. The files of each use
 * case are template text and are not modelled. The pluralizer is the npm
 * `pluralize` package, which is not part of this model: it is a parameter.
 */
module CrudUseCases {
  import opened Wrappers
  import opened Text
  import opened NameCase
  import opened BracketScan
  import opened Patch

  /** The name forms the CRUD templates are filled with. */
  datatype CrudConfig = CrudConfig(
    entityName: string,    // Pascal case, as given
    camelName: string,     // camel case, as given
    kebabName: string,     // kebab case, as given
    tokenBase: string,     // upper snake case of the camel name
    pluralKebab: string,   // the pluralizer applied to the kebab name
    pluralPascal: string)  // Pascal case of that plural

  /**
   * The configuration built from the three names the caller passes and the
   * pluralizer: the token base is the upper snake form of the camel name and
   * the Pascal plural is derived from the kebab plural.
   */
  function Config(entity: string, camel: string, kebab: string, plural: string -> string): (cfg: CrudConfig)
    ensures cfg.entityName == entity && cfg.camelName == camel && cfg.kebabName == kebab
    ensures LowerAll(cfg.tokenBase) == SnakeCase(camel)
    ensures forall k :: 0 <= k < |cfg.tokenBase| ==> !IsLower(cfg.tokenBase[k])
    ensures cfg.pluralKebab == plural(kebab)
    ensures cfg.pluralPascal == PascalCase(cfg.pluralKebab)
    ensures LowerAll(cfg.pluralPascal) == LowerAll(PascalCase(plural(kebab)))
    ensures forall k :: 0 <= k < |cfg.pluralPascal| ==> !IsWordSeparator(cfg.pluralPascal[k])
  {
    UpperSnakeLowersToSnake(camel);
    CrudConfig(entity, camel, kebab, UpperSnakeCase(camel), plural(kebab), PascalCase(plural(kebab)))
  }

  /** Where the use cases go, relative to the project root. */
  function BaseDir(cfg: CrudConfig): string
  {
    "src/use-case/" + cfg.kebabName
  }

  // ------------------------------------------------------- the five cases

  /** The five use cases, in the order they are generated and listed. */
  datatype CrudOp = Create | Update | Get | List | Delete

  const Ops: seq<CrudOp> := [Create, Update, Get, List, Delete]

  function Verb(op: CrudOp): string
  {
    match op
    case Create => "Create"
    case Update => "Update"
    case Get => "Get"
    case List => "List"
    case Delete => "Delete"
  }

  function DirPrefix(op: CrudOp): string
  {
    match op
    case Create => "create-"
    case Update => "update-"
    case Get => "get-"
    case List => "list-"
    case Delete => "delete-"
  }

  /** The listing works on the plural; the other four on the entity. */
  function UseCaseName(cfg: CrudConfig, op: CrudOp): string
  {
    Verb(op) + if op == List then cfg.pluralPascal else cfg.entityName
  }

  /** The use case's directory, inside the base directory. */
  function UseCaseDir(cfg: CrudConfig, op: CrudOp): string
  {
    DirPrefix(op) + if op == List then cfg.pluralKebab else cfg.kebabName
  }

  /** The module each use-case file exports. */
  function ModuleName(cfg: CrudConfig, op: CrudOp): string
  {
    UseCaseName(cfg, op) + "Module"
  }

  /**
   * Whatever the names, the five use cases have five different names and
   * five different directories: the verbs already differ in their first
   * letter.
   */
  lemma UseCasesDistinct(cfg: CrudConfig, a: CrudOp, b: CrudOp)
    requires a != b
    ensures UseCaseName(cfg, a) != UseCaseName(cfg, b)
    ensures ModuleName(cfg, a) != ModuleName(cfg, b)
    ensures UseCaseDir(cfg, a) != UseCaseDir(cfg, b)
  {
    assert UseCaseName(cfg, a)[0] == Verb(a)[0] && UseCaseName(cfg, b)[0] == Verb(b)[0];
    assert ModuleName(cfg, a)[0] == Verb(a)[0] && ModuleName(cfg, b)[0] == Verb(b)[0];
    assert UseCaseDir(cfg, a)[0] == DirPrefix(a)[0] && UseCaseDir(cfg, b)[0] == DirPrefix(b)[0];
  }

  // ---------------------------------------------------- the aggregator file

  /** The import of one use-case module into the aggregator. */
  function ImportLine(cfg: CrudConfig, op: CrudOp): string
  {
    "import { " + ModuleName(cfg, op) + " } from './" + UseCaseDir(cfg, op) + "/" + UseCaseName(cfg, op) + "';"
  }

  /** The exported name of the aggregator module. */
  function AggregatorName(cfg: CrudConfig): string
  {
    cfg.entityName + "UseCaseModule"
  }

  /** The aggregator file, relative to the project root. */
  function AggregatorPath(cfg: CrudConfig): string
  {
    BaseDir(cfg) + "/" + AggregatorName(cfg) + ".ts"
  }

  /** Each line followed by a line break. */
  function Lines(xs: seq<string>): string
  {
    if |xs| == 0 then "" else xs[0] + "\n" + Lines(xs[1..])
  }

  /** The import lines, one per use case, in the order of `Ops`. */
  function ImportLines(cfg: CrudConfig): (ls: seq<string>)
    ensures |ls| == |Ops|
    ensures forall i :: 0 <= i < |Ops| ==> ls[i] == ImportLine(cfg, Ops[i])
  {
    seq(|Ops|, i requires 0 <= i < |Ops| => ImportLine(cfg, Ops[i]))
  }

  /** The module names, in the order of `Ops`. */
  function ModuleNames(cfg: CrudConfig): (ms: seq<string>)
    ensures |ms| == |Ops|
    ensures forall i :: 0 <= i < |Ops| ==> ms[i] == ModuleName(cfg, Ops[i])
  {
    seq(|Ops|, i requires 0 <= i < |Ops| => ModuleName(cfg, Ops[i]))
  }

  /** The piece of the array text that precedes one element's comma. */
  function Indented(m: string): string
  {
    "\n    " + m
  }

  /** The pieces between the commas of an array listing `ms`, the last one before the `]`. */
  function Pieces(ms: seq<string>): (xs: seq<string>)
    ensures |xs| == |ms| + 1 && xs[|ms|] == "\n  "
    ensures forall k :: 0 <= k < |ms| ==> xs[k] == Indented(ms[k])
  {
    seq(|ms|, i requires 0 <= i < |ms| => Indented(ms[i])) + ["\n  "]
  }

  /**
   * The text of an `imports` array listing `ms` one per line, each with a
   * trailing comma, the closing bracket on a line of its own:
   * `\n    A,\n    B,\n  `.
   */
  function ArrayBody(ms: seq<string>): string
  {
    Join(Pieces(ms), ",")
  }

  const ModuleOpen := "new Module({\n  imports: ["
  const ModuleClose := "],\n});\n"

  /** The `simple-di` import, the five use-case imports and a blank line. */
  function ImportBlock(cfg: CrudConfig): string
  {
    "import { Module } from '@kanian77/simple-di';\n" + Lines(ImportLines(cfg)) + "\n"
  }

  function ExportDecl(cfg: CrudConfig): string
  {
    "export const " + AggregatorName(cfg) + " = "
  }

  /** A module file: `pre`, then a module object whose `imports` array lists `ms`. */
  function ModuleFile(pre: string, ms: seq<string>): string
  {
    pre + ModuleOpen + ArrayBody(ms) + ModuleClose
  }

  /** A module file starts with `pre`, opens the array right after it and ends with the object's closing. */
  lemma ModuleFileShape(pre: string, body: string)
    ensures var r := pre + ModuleOpen + body + ModuleClose;
            && IsAt(r, pre, 0) && IsAt(r, ModuleOpen, |pre|)
            && |r| >= |ModuleClose| && r[|r| - |ModuleClose|..] == ModuleClose
  {
    var r := pre + ModuleOpen + body + ModuleClose;
    assert r[..|pre|] == pre;
    assert r[|pre|..|pre| + |ModuleOpen|] == ModuleOpen;
    assert r[|r| - |ModuleClose|..] == ModuleClose;
  }

  /**
   * The whole aggregator file: the imports and the export declaration,
   * then the module object whose `imports` array opens right after them,
   * and the closing of that object at the very end.
   */
  function AggregatorContent(cfg: CrudConfig): (r: string)
    ensures IsAt(r, AggregatorPrefix(cfg), 0)
    ensures IsAt(r, ModuleOpen, |AggregatorPrefix(cfg)|)
    ensures |r| >= |ModuleClose| && r[|r| - |ModuleClose|..] == ModuleClose
  {
    var pre := AggregatorPrefix(cfg);
    var body := ArrayBody(ModuleNames(cfg));
    ModuleFileShape(pre, body);
    ModuleFile(pre, ModuleNames(cfg))
  }

  /** Everything before the module object: the imports and the export declaration. */
  function AggregatorPrefix(cfg: CrudConfig): string
  {
    ImportBlock(cfg) + ExportDecl(cfg)
  }

  /** The elements of an array literal's text: the pieces between commas, trimmed. */
  function Elements(content: string): (es: seq<string>)
    ensures |es| == |Split(content, ",")|
    ensures forall i :: 0 <= i < |es| ==> es[i] == Trim(Split(content, ",")[i])
  {
    var ps := Split(content, ",");
    seq(|ps|, i requires 0 <= i < |ps| => Trim(ps[i]))
  }

  /**
   * The array that opens at `start` in `c` is closed by a bracket at or
   * after `start`, and the elements between are `es`.
   */
  predicate ArrayElements(c: string, start: nat, es: seq<string>)
  {
    start <= |c| && ClosingBracket(c, start) >= start && Elements(ArrayContent(c, start, ClosingBracket(c, start))) == es
  }

  /** A name that can stand in the array on its own: no bracket, comma or white space. */
  predicate PlainName(x: string)
  {
    BracketFree(x) && ',' !in x && forall k :: 0 <= k < |x| ==> !IsSpace(x[k])
  }

  /** Non-empty plain names only. */
  predicate AllPlain(ms: seq<string>)
  {
    forall k :: 0 <= k < |ms| ==> PlainName(ms[k]) && |ms[k]| > 0
  }

  lemma PlainAppend(a: string, b: string)
    requires PlainName(a) && PlainName(b)
    ensures PlainName(a + b)
  {
    assert forall k :: 0 <= k < |a + b| ==> (a + b)[k] == if k < |a| then a[k] else b[k - |a|];
  }

  lemma VerbPlain(op: CrudOp)
    ensures PlainName(Verb(op)) && PlainName("Module")
  {
  }

  lemma ModuleNamePlain(cfg: CrudConfig, op: CrudOp)
    requires PlainName(cfg.entityName) && PlainName(cfg.pluralPascal)
    ensures PlainName(ModuleName(cfg, op)) && |ModuleName(cfg, op)| > 0
  {
    VerbPlain(op);
    PlainAppend(Verb(op), if op == List then cfg.pluralPascal else cfg.entityName);
    PlainAppend(UseCaseName(cfg, op), "Module");
  }

  /** The array text holds a bracket only if one of the names does. */
  lemma ArrayBodyBracketFree(ms: seq<string>)
    requires forall k :: 0 <= k < |ms| ==> BracketFree(ms[k])
    ensures BracketFree(ArrayBody(ms))
  {
    var xs := Pieces(ms);
    forall k | 0 <= k < |xs| ensures BracketFree(xs[k]) {
      if k < |ms| {
        assert xs[k] == "\n    " + ms[k];
      }
    }
    JoinBracketFree(xs, ",");
  }

  /** Splitting the array text at commas gives back its pieces. */
  lemma SplitArrayBody(ms: seq<string>)
    requires forall k :: 0 <= k < |ms| ==> ',' !in ms[k]
    ensures Split(ArrayBody(ms), ",") == Pieces(ms)
  {
    var xs := Pieces(ms);
    forall k | 0 <= k < |xs| ensures SeparableBy(xs[k], ",") {
      if k < |ms| {
        assert xs[k] == "\n    " + ms[k];
      }
    }
    SplitJoin(xs, ",");
  }

  /**
   * Reading the array text back, splitting at commas and trimming, gives
   * the names in order, followed by the empty piece after the trailing
   * comma.
   */
  lemma ArrayBodyElements(ms: seq<string>)
    requires AllPlain(ms)
    ensures Elements(ArrayBody(ms)) == ms + [""]
  {
    SplitArrayBody(ms);
    PiecesTrimmed(ms);
    var es := Elements(ArrayBody(ms));
    assert forall k :: 0 <= k < |es| ==> es[k] == Trim(Pieces(ms)[k]);
  }

  lemma PiecesTrimmed(ms: seq<string>)
    requires AllPlain(ms)
    ensures forall k :: 0 <= k <= |ms| ==> Trim(Pieces(ms)[k]) == (ms + [""])[k]
  {
    forall k | 0 <= k < |ms| ensures Trim(Pieces(ms)[k]) == ms[k] {
      ElementTrimmed(ms[k]);
    }
    TrimBlank("\n  ");
  }

  lemma ElementTrimmed(m: string)
    requires PlainName(m) && |m| > 0
    ensures Trim(Indented(m)) == m
  {
    TrimIndented("\n    ", m);
  }

  /**
   * In `pre` followed by a module object whose array text is bracket-free,
   * the scan from just after `imports: [` stops at the array's own `]`.
   */
  lemma ModuleObjectArray(pre: string, body: string)
    requires BracketFree(body)
    ensures var s := pre + ModuleOpen + body + ModuleClose;
            var start := |pre| + |ModuleOpen|;
            && start + |body| < |s|
            && ClosingBracket(s, start) == start + |body|
            && s[start..start + |body|] == body
  {
    var s := pre + ModuleOpen + body + ModuleClose;
    var start := |pre| + |ModuleOpen|;
    assert s[start..start + |body|] == body;
    assert s[start + |body|] == ModuleClose[0] == ']';
    FlatArrayClosed(s, start, start + |body|);
  }

  /**
   * In a module file whose names are plain, the scan from just after
   * `imports: [` stops at the array's own `]`, and the elements between
   * are the names, in order, then the empty piece after the last comma.
   */
  lemma ModuleFileLists(c: string, pre: string, ms: seq<string>)
    requires c == ModuleFile(pre, ms) && AllPlain(ms)
    ensures ArrayElements(c, |pre| + |ModuleOpen|, ms + [""])
  {
    ArrayBodyBracketFree(ms);
    ModuleObjectArray(pre, ArrayBody(ms));
    ArrayBodyElements(ms);
  }

  /**
   * The aggregator's `imports` array is closed by its own `]`, and the
   * elements it holds are the five use-case modules in generation order:
   * what a later bracket scan over this file sees.
   */
  lemma AggregatorArrayListsUseCases(cfg: CrudConfig, c: string)
    requires PlainName(cfg.entityName) && PlainName(cfg.pluralPascal)
    requires c == AggregatorContent(cfg)
    ensures ArrayElements(c, |AggregatorPrefix(cfg)| + |ModuleOpen|, ModuleNames(cfg) + [""])
  {
    ModuleNamesPlain(cfg);
    ModuleFileLists(c, AggregatorPrefix(cfg), ModuleNames(cfg));
  }

  lemma ModuleNamesPlain(cfg: CrudConfig)
    requires PlainName(cfg.entityName) && PlainName(cfg.pluralPascal)
    ensures AllPlain(ModuleNames(cfg))
  {
    forall k | 0 <= k < |Ops| ensures PlainName(ModuleNames(cfg)[k]) && |ModuleNames(cfg)[k]| > 0 {
      ModuleNamePlain(cfg, Ops[k]);
    }
  }

  /** The aggregator file exports the aggregator under its name. */
  lemma AggregatorExportsName(cfg: CrudConfig)
    ensures Contains(AggregatorContent(cfg), "export const " + AggregatorName(cfg) + " = ")
  {
    var x := ImportBlock(cfg);
    var d := ExportDecl(cfg);
    assert IsAt(x + d, d, |x|);
    OccurrenceIsContained(x + d, d, |x|);
    ContainedInPrefix(x + d, ModuleOpen, d);
    ContainedInPrefix(x + d + ModuleOpen, ArrayBody(ModuleNames(cfg)), d);
    ContainedInPrefix(x + d + ModuleOpen + ArrayBody(ModuleNames(cfg)), ModuleClose, d);
    assert AggregatorContent(cfg) == x + d + ModuleOpen + ArrayBody(ModuleNames(cfg)) + ModuleClose;
  }

  // ------------------------------------------------- UseCaseModule.ts

  /**
   * The import line registered in `src/use-case/UseCaseModule.ts`: an
   * `import ` statement binding the aggregator under its own name.
   */
  function AggregatorImport(cfg: CrudConfig): (r: string)
    ensures IsAt(r, ImportToken, 0)
    ensures IsAt(r, AggregatorName(cfg), |"import { "|)
  {
    var a := AggregatorName(cfg);
    var tail := " } from '" + AggregatorImportPath(cfg) + "';";
    var r := "import { " + a + tail;
    assert IsAt(r, r, 0);
    OccurrenceOfMiddle(r, "import { ", a, tail, 0);
    assert r[..7] == ImportToken;
    r
  }

  /** The aggregator's module path, relative to `src/use-case/`. */
  function AggregatorImportPath(cfg: CrudConfig): string
  {
    "./" + cfg.kebabName + "/" + AggregatorName(cfg)
  }

  /**
   * The site: the guard is the aggregator's name anywhere in the file, the
   * array is the first `imports:\s*[` match, the element is the bare name,
   * and the file is written even when the array edit did not happen.
   */
  function CrudSite(cfg: CrudConfig): Site
  {
    Site(AggregatorName(cfg), AggregatorImport(cfg), AggregatorName(cfg), AggregatorName(cfg), false, true)
  }

  /**
   * `registerInUseCaseModule`: nothing when the file is missing or already
   * mentions the aggregator; otherwise the import line is added and the
   * aggregator appended to the array when there is one, and the file is
   * written in any case.
   */
  function RegisterCrudUseCaseModule(file: Option<string>, cfg: CrudConfig): (o: Outcome)
    ensures file.None? <==> o == NotWritten(FileMissing)
    ensures file.Some? ==> (o == NotWritten(AlreadyRegistered) <==> Contains(file.value, AggregatorName(cfg)))
    ensures file.Some? ==> (o.Written? <==> !Contains(file.value, AggregatorName(cfg)))
    ensures o.Written? ==>
              var c1 := WithImport(file.value, AggregatorImport(cfg));
              || o.text == c1
              || SplicedFrom(o.text, c1, ", " + AggregatorName(cfg))
              || SplicedFrom(o.text, c1, AggregatorName(cfg))
    ensures o.Written? ==>
              var name := AggregatorName(cfg);
              var e := ImportAndElement(file.value, AggregatorImport(cfg), name, name, false);
              o.text == (if e.Inserted? then e.text else WithImport(file.value, AggregatorImport(cfg)))
  {
    Register(file, CrudSite(cfg))
  }

  lemma ImportHoldsAggregatorName(cfg: CrudConfig)
    ensures Contains(AggregatorImport(cfg), AggregatorName(cfg))
  {
    OccurrenceIsContained(AggregatorImport(cfg), AggregatorName(cfg), |"import { "|);
  }

  /**
   * Registration is idempotent for every name: the written file holds the
   * aggregator's name, in the import line or in the array, so a second run
   * stops at the guard.
   */
  lemma CrudRegistrationIdempotent(c: string, cfg: CrudConfig)
    requires RegisterCrudUseCaseModule(Some(c), cfg).Written?
    ensures RegisterCrudUseCaseModule(Some(RegisterCrudUseCaseModule(Some(c), cfg).text), cfg)
            == NotWritten(AlreadyRegistered)
  {
    var s := CrudSite(cfg);
    ImportHoldsAggregatorName(cfg);
    ContainsItself(s.entry);
    RegisterIdempotentViaEntry(c, s);
  }

  /**
   * The registered import resolves to the aggregator file: taken from the
   * directory of `src/use-case/UseCaseModule.ts`, its path with `.ts` added
   * is the path the aggregator was written to.
   */
  lemma RegisteredImportFindsAggregator(cfg: CrudConfig)
    ensures "src/use-case/" + AggregatorImportPath(cfg)[2..] + ".ts" == AggregatorPath(cfg)
  {
    assert AggregatorImportPath(cfg)[2..] == cfg.kebabName + "/" + AggregatorName(cfg);
  }

  // ------------------------------------------------------------ the command

  /** What `generateCrudUseCases` produced. */
  datatype CrudRun = CrudRun(
    config: CrudConfig,
    useCaseDirs: seq<string>,
    aggregatorPath: string,
    aggregator: string,
    useCaseModule: Outcome)

  /**
   * `generateCrudUseCases(EntityName, entityName, kebabName, srcDir)`: the
   * five use-case directories under the base directory, the aggregator
   * file beside them, and the registration in `UseCaseModule.ts`.
   */
  function GenerateCrud(entity: string, camel: string, kebab: string, plural: string -> string,
                        useCaseModuleFile: Option<string>): (r: CrudRun)
    ensures r.config == Config(entity, camel, kebab, plural)
    ensures |r.useCaseDirs| == |Ops|
    ensures forall i :: 0 <= i < |Ops| ==> r.useCaseDirs[i] == BaseDir(r.config) + "/" + UseCaseDir(r.config, Ops[i])
    ensures r.aggregatorPath == AggregatorPath(r.config)
    ensures r.aggregator == AggregatorContent(r.config)
    ensures r.useCaseModule == RegisterCrudUseCaseModule(useCaseModuleFile, r.config)
  {
    var cfg := Config(entity, camel, kebab, plural);
    var dirs := seq(|Ops|, i requires 0 <= i < |Ops| => BaseDir(cfg) + "/" + UseCaseDir(cfg, Ops[i]));
    CrudRun(cfg, dirs, AggregatorPath(cfg), AggregatorContent(cfg), RegisterCrudUseCaseModule(useCaseModuleFile, cfg))
  }
}
