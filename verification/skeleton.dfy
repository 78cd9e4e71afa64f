/**
 * The two pieces of `generateSkeleton` (src/generate_skeleton.ts) that are
 * more than copying: the guards it runs before touching the disk, and the
 * text of the barrel `index.ts` that `createIndex` writes into a directory
 * from the names of the files found there.
 */
module Skeleton {
  import opened Wrappers
  import opened Text
  import opened Patch

  // ---------------------------------------------------------------- guards

  /**
   * The guards of `generateSkeleton(projectName)`: an empty name is refused
   * first, then a name whose directory already exists. `existing` holds
   * the paths present in the working directory, files or directories; on success the
   * result is the directory to create.
   */
  function CheckProjectName(name: string, existing: set<string>): (r: Result<string, GenError>)
    ensures r == Failure(NameRequired) <==> name == ""
    ensures r == Failure(DirectoryExists(name)) <==> name != "" && name in existing
    ensures r.Success? <==> name != "" && name !in existing
    ensures r.Success? ==> r.value == name
  {
    if name == "" then Failure(NameRequired)
    else if name in existing then Failure(DirectoryExists(name))
    else Success(name)
  }

  /** A second run with the same name is refused: the first one created the directory. */
  lemma SecondSkeletonRefused(name: string, existing: set<string>)
    requires CheckProjectName(name, existing).Success?
    ensures CheckProjectName(name, existing + {CheckProjectName(name, existing).value}) == Failure(DirectoryExists(name))
  {
  }

  // ------------------------------------------------------------ index.ts

  const Extension := ".ts"
  const IndexFile := "index.ts"

  predicate EndsWith(s: string, p: string)
  {
    |p| <= |s| && s[|s| - |p|..] == p
  }

  /** The filter of `createIndex`: TypeScript files other than the index itself. */
  predicate Kept(f: string)
  {
    EndsWith(f, Extension) && f != IndexFile
  }

  /** The kept names, in the order the directory listing gave them. */
  function KeptFiles(fs: seq<string>): (r: seq<string>)
    ensures |r| <= |fs|
    ensures forall f :: f in r <==> f in fs && Kept(f)
  {
    if |fs| == 0 then []
    else (if Kept(fs[0]) then [fs[0]] else []) + KeptFiles(fs[1..])
  }

  /** Filtering a listing made of two parts filters each part and keeps them in order. */
  lemma {:induction false} KeptFilesAppend(a: seq<string>, b: seq<string>)
    ensures KeptFiles(a + b) == KeptFiles(a) + KeptFiles(b)
    decreases |a|
  {
    if |a| == 0 {
      assert a + b == b;
    } else {
      assert (a + b)[1..] == a[1..] + b;
      KeptFilesAppend(a[1..], b);
    }
  }

  /** `s.replace(p, r)` with a string pattern: only the first occurrence is replaced. */
  function ReplaceFirst(s: string, p: string, r: string): (t: string)
    ensures IndexOf(s, p, 0) == -1 ==> t == s
    ensures IndexOf(s, p, 0) >= 0 ==> |t| == |s| - |p| + |r|
    ensures var i := IndexOf(s, p, 0);
            i >= 0 ==> t[..i] == s[..i] && IsAt(t, r, i) && t[i + |r|..] == s[i + |p|..]
  {
    var i := IndexOf(s, p, 0);
    if i < 0 then s
    else
      var t := s[..i] + r + s[i + |p|..];
      assert t[i..i + |r|] == r;
      assert t[i + |r|..] == s[i + |p|..];
      t
  }

  const ExportPrefix := "export * from './"
  const ExportSuffix := "';"

  /**
   * One line of the index as the source computes it: the name with its
   * first `.ts` cut out, wherever in the name that is.
   */
  function ExportLineAsWritten(f: string): (l: string)
    ensures var i := IndexOf(f, Extension, 0);
            i >= 0 ==> l == ExportPrefix + f[..i] + f[i + |Extension|..] + ExportSuffix
    ensures IndexOf(f, Extension, 0) == -1 ==> l == ExportPrefix + f + ExportSuffix
  {
    var i := IndexOf(f, Extension, 0);
    var l := ExportPrefix + ReplaceFirst(f, Extension, "") + ExportSuffix;
    if i >= 0 then CutAt(f, Extension, i); l else l
  }

  /** The module a kept file provides: its name without the trailing extension. */
  function ModuleOf(f: string): (m: string)
    requires Kept(f)
    ensures m + Extension == f
  {
    f[..|f| - |Extension|]
  }

  /** One line of the index: re-export everything from the file's module. */
  function ExportLine(f: string): string
    requires Kept(f)
  {
    ExportPrefix + ModuleOf(f) + ExportSuffix
  }

  /** Where the pattern is first found at `i`, replacing it with nothing cuts it out there. */
  lemma CutAt(s: string, p: string, i: nat)
    requires IndexOf(s, p, 0) == i && i + |p| <= |s|
    ensures ReplaceFirst(s, p, "") == s[..i] + s[i + |p|..]
  {
  }

  /**
   * The two agree whenever the extension first occurs at the end of the
   * name, which is the case for every ordinary file name.
   */
  lemma ExportLinesAgree(f: string)
    requires Kept(f) && IndexOf(f, Extension, 0) == |f| - |Extension|
    ensures ExportLineAsWritten(f) == ExportLine(f)
  {
    var m := ModuleOf(f);
    CutAt(f, Extension, |m|);
    assert f[..|m|] + f[|m| + |Extension|..] == m;
  }

  /**
   * A name with `.ts` inside it loses that inner `.ts` instead of its
   * extension, and the re-export then points at a module that does not
   * exist.
   */
  lemma FirstTsRemovalCorrupts()
    ensures Kept("api.tsclient.ts")
    ensures ExportLineAsWritten("api.tsclient.ts") == ExportPrefix + "apiclient.ts" + ExportSuffix
    ensures ExportLine("api.tsclient.ts") == ExportPrefix + "api.tsclient" + ExportSuffix
  {
    InnerNameKept();
    InnerNameAsWritten();
    InnerNameCorrected();
  }

  lemma InnerNameKept()
    ensures Kept("api.tsclient.ts")
  {
    var f := "api.tsclient.ts";
    assert f[|f| - 3..] == ".ts";
  }

  lemma InnerNameAsWritten()
    ensures ExportLineAsWritten("api.tsclient.ts") == ExportPrefix + "apiclient.ts" + ExportSuffix
  {
    InnerExtensionCut("api.tsclient.ts");
  }

  lemma InnerExtensionCut(f: string)
    requires f == "api.tsclient.ts"
    ensures ReplaceFirst(f, Extension, "") == "apiclient.ts"
  {
    InnerExtensionFirst(f);
    CutAt(f, Extension, 3);
    assert f[..3] + f[6..] == "apiclient.ts";
  }

  lemma InnerNameCorrected()
    requires Kept("api.tsclient.ts")
    ensures ExportLine("api.tsclient.ts") == ExportPrefix + "api.tsclient" + ExportSuffix
  {
    assert ModuleOf("api.tsclient.ts") == "api.tsclient";
  }

  lemma InnerExtensionFirst(f: string)
    requires f == "api.tsclient.ts"
    ensures IndexOf(f, Extension, 0) == 3
  {
    assert IsAt(f, Extension, 3) by {
      assert f[3..6] == Extension;
    }
    forall j | 0 <= j < 3 ensures !IsAt(f, Extension, j) {
      assert f[j..j + 3][0] == f[j] != '.';
    }
    FirstOccurrence(f, Extension, 3);
  }

  /** An occurrence with none before it is the one `indexOf` finds. */
  lemma FirstOccurrence(s: string, p: string, i: nat)
    requires IsAt(s, p, i) && forall j :: 0 <= j < i ==> !IsAt(s, p, j)
    ensures IndexOf(s, p, 0) == i
  {
  }

  /** The index's lines: one per kept file, in listing order. */
  function ExportLines(fs: seq<string>): (ls: seq<string>)
    ensures |ls| == |KeptFiles(fs)|
    ensures forall i :: 0 <= i < |ls| ==> Kept(KeptFiles(fs)[i]) && ls[i] == ExportLine(KeptFiles(fs)[i])
  {
    var k := KeptFiles(fs);
    assert forall i :: 0 <= i < |k| ==> k[i] in k;
    seq(|k|, i requires 0 <= i < |k| => ExportLine(k[i]))
  }

  /** The content of the `index.ts` that `createIndex` writes: the lines joined by line breaks. */
  function IndexContent(fs: seq<string>): string
  {
    Join(ExportLines(fs), "\n")
  }

  /** The index's lines as the source computes them, each with the first `.ts` of the name removed. */
  function ExportLinesAsWritten(fs: seq<string>): (ls: seq<string>)
    ensures |ls| == |KeptFiles(fs)|
    ensures forall i :: 0 <= i < |ls| ==> ls[i] == ExportLineAsWritten(KeptFiles(fs)[i])
  {
    var k := KeptFiles(fs);
    seq(|k|, i requires 0 <= i < |k| => ExportLineAsWritten(k[i]))
  }

  /** The `index.ts` content exactly as `createIndex` builds it. */
  function IndexContentAsWritten(fs: seq<string>): string
  {
    Join(ExportLinesAsWritten(fs), "\n")
  }

  /** Every kept name's first `.ts` is its extension. */
  predicate ExtensionFirstOnly(fs: seq<string>)
  {
    forall f :: f in KeptFiles(fs) ==> IndexOf(f, Extension, 0) == |f| - |Extension|
  }

  /**
   * The index as written and the corrected index are the same text unless
   * some kept name holds `.ts` before its extension.
   */
  lemma IndexAsWrittenAgrees(fs: seq<string>)
    requires ExtensionFirstOnly(fs)
    ensures IndexContentAsWritten(fs) == IndexContent(fs)
  {
    var k := KeptFiles(fs);
    forall i | 0 <= i < |k| ensures ExportLinesAsWritten(fs)[i] == ExportLines(fs)[i] {
      assert k[i] in k;
      ExportLinesAgree(k[i]);
    }
    assert ExportLinesAsWritten(fs) == ExportLines(fs);
  }

  /** For a listing holding `api.tsclient.ts`, the index as written differs from the corrected one. */
  lemma IndexAsWrittenCorrupts()
    ensures IndexContentAsWritten(["api.tsclient.ts"]) == ExportPrefix + "apiclient.ts" + ExportSuffix
    ensures IndexContent(["api.tsclient.ts"]) == ExportPrefix + "api.tsclient" + ExportSuffix
  {
    var fs := ["api.tsclient.ts"];
    FirstTsRemovalCorrupts();
    assert KeptFiles(fs) == fs;
    assert ExportLinesAsWritten(fs) == [ExportLineAsWritten(fs[0])];
    assert ExportLines(fs) == [ExportLine(fs[0])];
  }

  /** The index, corrected or as the source writes it, is empty exactly when no file is kept. */
  lemma IndexEmptyIffNothingKept(fs: seq<string>)
    ensures IndexContent(fs) == "" <==> |KeptFiles(fs)| == 0
    ensures IndexContentAsWritten(fs) == "" <==> |KeptFiles(fs)| == 0
  {
    var ls := ExportLines(fs);
    if |ls| > 0 {
      JoinStartsWithFirst(ls, "\n");
      assert |ls[0]| >= |ExportPrefix|;
    }
    var ws := ExportLinesAsWritten(fs);
    if |ws| > 0 {
      JoinStartsWithFirst(ws, "\n");
      assert |ws[0]| >= |ExportPrefix|;
    }
  }

  lemma JoinStartsWithFirst(xs: seq<string>, sep: string)
    requires |xs| > 0
    ensures |Join(xs, sep)| >= |xs[0]|
  {
  }

  /** A name without a line break gives a line without one. */
  lemma ExportLineUnbroken(f: string)
    requires Kept(f) && '\n' !in f
    ensures '\n' !in ExportLine(f)
  {
    assert forall c :: c in ModuleOf(f) ==> c in f;
  }

  /**
   * When no kept name holds a line break, reading the index back line by
   * line gives exactly one line per kept file, in listing order, each the
   * re-export of that file's module.
   */
  lemma IndexLines(fs: seq<string>)
    requires forall f :: f in fs && Kept(f) ==> '\n' !in f
    requires |KeptFiles(fs)| > 0
    ensures Split(IndexContent(fs), "\n") == ExportLines(fs)
    ensures |Split(IndexContent(fs), "\n")| == |KeptFiles(fs)|
  {
    var ls := ExportLines(fs);
    forall i | 0 <= i < |ls| ensures SeparableBy(ls[i], "\n") {
      var f := KeptFiles(fs)[i];
      assert f in KeptFiles(fs);
      ExportLineUnbroken(f);
    }
    SplitJoin(ls, "\n");
  }
}
