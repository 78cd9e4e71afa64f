/**
 * The steps the registration sites share: where a new import line goes,
 * where the `imports` array opens, which separator precedes a new element,
 * and the element splice itself. Each site combines them with its own guard,
 * its own insertion text and its own rule for when the file is written.
 */
module Patch {
  import opened Wrappers
  import opened Text
  import opened BracketScan

  /** Why a registration left its aggregator file untouched. */
  datatype Reason =
    | FileMissing        // the aggregator file does not exist
    | AlreadyRegistered  // the site's guard text is already present
    | NoArray            // no `imports:` array was found
    | Unmatched          // the array's closing bracket was not found
    | AlreadyListed      // the array already names the module

  /** What a registration does to its aggregator file. */
  datatype Outcome = Written(text: string) | NotWritten(reason: Reason)

  /** Why a generator refused to start: the errors it throws before touching the disk. */
  datatype GenError = NameRequired | DirectoryExists(path: string)

  /** `t` is `c` with `ins` spliced in somewhere. */
  ghost predicate SplicedFrom(t: string, c: string, ins: string)
  {
    exists q :: 0 <= q <= |c| && t == Splice(c, q, ins)
  }

  // ------------------------------------------------------------- imports

  const ImportToken := "import "

  /**
   * The offset just after the line holding the last `import `, or 0 when
   * there is no `import ` or no line break after the last one.
   */
  function ImportLineOffset(c: string): (q: nat)
    ensures q <= |c|
    ensures q > 0 ==> var i := LastIndexOf(c, ImportToken);
                      0 <= i < q && c[q - 1] == '\n' && '\n' !in c[i..q - 1]
    ensures q == 0 ==> var i := LastIndexOf(c, ImportToken);
                       i == -1 || '\n' !in c[i..]
  {
    var last := LastIndexOf(c, ImportToken);
    if last == -1 then 0
    else
      var nl := IndexOf(c, "\n", last);
      if nl == -1 then
        assert forall j :: last <= j < |c| ==> !IsAt(c, "\n", j);
        assert forall j :: last <= j < |c| ==> c[j] != '\n' by {
          forall j | last <= j < |c| ensures c[j] != '\n' {
            assert !IsAt(c, "\n", j);
            assert c[j..j + 1] == [c[j]];
          }
        }
        0
      else
        assert c[nl..nl + 1] == "\n";
        assert forall j :: last <= j < nl ==> c[j] != '\n' by {
          forall j | last <= j < nl ensures c[j] != '\n' {
            assert !IsAt(c, "\n", j);
            assert c[j..j + 1] == [c[j]];
          }
        }
        nl + 1
  }

  /** The import line, with its line break, inserted after the last import line (or prepended). */
  function InsertImportLine(c: string, stmt: string): (r: string)
    ensures SplicedFrom(r, c, stmt + "\n")
    ensures IsAt(r, stmt, ImportLineOffset(c))
    ensures var q := ImportLineOffset(c); r[..q] + r[q + |stmt| + 1..] == c
  {
    var q := ImportLineOffset(c);
    var r := Splice(c, q, stmt + "\n");
    SpliceRemovable(c, q, stmt + "\n");
    SplicedHeadAt(c, q, stmt, "\n");
    r
  }

  // ------------------------------------------------------ imports array

  const ExactMarker := "imports: ["

  /** Position just after the first `imports: [`, found by exact search. */
  function ExactArrayOpen(c: string): (a: Option<nat>)
    ensures a.None? <==> !Contains(c, ExactMarker)
    ensures a.Some? ==> IsAt(c, ExactMarker, a.value - |ExactMarker|) && a.value <= |c|
    ensures a.Some? ==> forall j :: 0 <= j < a.value - |ExactMarker| ==> !IsAt(c, ExactMarker, j)
  {
    ContainsIffFound(c, ExactMarker);
    var i := IndexOf(c, ExactMarker, 0);
    if i < 0 then None else Some(i + |ExactMarker|)
  }

  /** `imports:`, then any run of white space, then `[` matches from `i` and ends at `a`. */
  predicate PatternAt(c: string, i: int, a: int)
  {
    && IsAt(c, "imports:", i)
    && i + 9 <= a <= |c|
    && c[a - 1] == '['
    && forall k :: i + 8 <= k < a - 1 ==> IsSpace(c[k])
  }

  /** The first position at or after `k` that is not white space. */
  function SkipSpaces(c: string, k: nat): (j: nat)
    requires k <= |c|
    ensures k <= j <= |c|
    ensures forall m :: k <= m < j ==> IsSpace(c[m])
    ensures j < |c| ==> !IsSpace(c[j])
    decreases |c| - k
  {
    if k < |c| && IsSpace(c[k]) then SkipSpaces(c, k + 1) else k
  }

  /** The end of a match of `imports:\s*\[` starting exactly at `i`, if there is one. */
  function PatternEndAt(c: string, i: nat): (a: Option<nat>)
    ensures a.Some? ==> PatternAt(c, i, a.value)
    ensures a.None? ==> forall e :: !PatternAt(c, i, e)
  {
    if !IsAt(c, "imports:", i) then None
    else
      var j := SkipSpaces(c, i + 8);
      if j < |c| && c[j] == '[' then Some(j + 1)
      else
        None
  }

  /** No match of the pattern starts in `[lo, hi)`. */
  ghost predicate NoPatternIn(c: string, lo: int, hi: int)
  {
    forall i, e :: lo <= i < hi ==> !PatternAt(c, i, e)
  }

  /** The leftmost match of `/imports:\s*\[/` at or after `from`: the regular-expression fallback. */
  function PatternArrayOpenFrom(c: string, from: nat): (a: Option<nat>)
    requires from <= |c|
    ensures a.Some? ==> a.value <= |c|
    ensures a.Some? ==> exists i :: from <= i && PatternAt(c, i, a.value) && NoPatternIn(c, from, i)
    ensures a.None? ==> NoPatternIn(c, from, |c| + 1)
    decreases |c| - from
  {
    match PatternEndAt(c, from)
    case Some(e) =>
      assert NoPatternIn(c, from, from);
      Some(e)
    case None =>
      NoPatternFrom(c, from);
      if from == |c| then None else PatternArrayOpenFrom(c, from + 1)
  }

  /** Where no match starts at `from`, a match-free stretch after it extends back to `from`. */
  lemma NoPatternFrom(c: string, from: nat)
    requires PatternEndAt(c, from).None?
    ensures forall hi :: NoPatternIn(c, from + 1, hi) ==> NoPatternIn(c, from, hi)
  {
  }

  function PatternArrayOpen(c: string): (a: Option<nat>)
    ensures a.Some? ==> a.value <= |c|
    ensures a.Some? ==> exists i :: PatternAt(c, i, a.value) && NoPatternIn(c, 0, i)
    ensures a.None? ==> forall i, e :: !PatternAt(c, i, e)
  {
    PatternArrayOpenFrom(c, 0)
  }

  // ------------------------------------------------------- the splice

  /** `", "` when the trimmed array content is non-empty and does not end with a comma, else nothing. */
  function Separator(content: string): string
  {
    var t := Trim(content);
    if |t| > 0 && t[|t| - 1] != ',' then ", " else ""
  }

  /**
   * The separator rule in terms of the content itself: a comma and a space
   * are needed exactly when the last visible character exists and is not a
   * comma.
   */
  lemma SeparatorRule(content: string)
    ensures Separator(content) == ", " <==> exists i :: LastVisibleAt(content, i) && content[i] != ','
    ensures Separator(content) == "" <==> !exists i :: LastVisibleAt(content, i) && content[i] != ','
  {
    TrimEmptyIffBlank(content);
    var t := Trim(content);
    assert ", " != "";
    if |t| > 0 {
      TrimEndsWithLastVisible(content);
      var i :| LastVisibleAt(content, i) && t[|t| - 1] == content[i];
      LastVisibleUnique(content, i);
    } else {
      assert forall j :: !LastVisibleAt(content, j);
    }
  }

  /** Content that ends with a comma takes the next element without a separator. */
  lemma NoSeparatorAfterComma(content: string)
    requires |content| > 0 && content[|content| - 1] == ','
    ensures Separator(content) == ""
  {
    SeparatorRule(content);
    assert LastVisibleAt(content, |content| - 1);
    LastVisibleUnique(content, |content| - 1);
  }

  lemma LastVisibleUnique(s: string, i: int)
    requires LastVisibleAt(s, i)
    ensures forall j :: LastVisibleAt(s, j) ==> j == i
  {
  }

  /**
   * `t` is `c` with `ins` placed immediately before the character at `close`,
   * everything else kept in order.
   */
  predicate InsertedBefore(t: string, c: string, close: int, ins: string)
  {
    0 <= close < |c| && |t| == |c| + |ins| && t == Splice(c, close, ins)
  }

  /** What happened to the `imports` array. */
  datatype ArrayEdit = Inserted(text: string) | ArraySkipped(reason: Reason)

  /** The array content between the opening position `start` and the closing bracket `close`. */
  function ArrayContent(c: string, start: nat, close: nat): string
    requires start <= close <= |c|
  {
    c[start..close]
  }

  /**
   * Insert `entry` (after the separator) just before the bracket closing the
   * array that opens at `open`, unless the array already mentions `name`.
   */
  function InsertIntoArray(c: string, open: Option<nat>, name: string, entry: string): (e: ArrayEdit)
    requires open.Some? ==> open.value <= |c|
    ensures e == ArraySkipped(NoArray) <==> open.None?
    ensures e == ArraySkipped(Unmatched) <==> open.Some? && ClosingBracket(c, open.value) == -1
    ensures e == ArraySkipped(AlreadyListed) <==>
              open.Some? && ClosingBracket(c, open.value) >= 0
              && Contains(ArrayContent(c, open.value, ClosingBracket(c, open.value)), name)
    ensures e.Inserted? <==>
              open.Some? && ClosingBracket(c, open.value) >= 0
              && !Contains(ArrayContent(c, open.value, ClosingBracket(c, open.value)), name)
    ensures e.Inserted? ==>
              && open.Some?
              && ClosingBracket(c, open.value) >= 0
              && InsertedBefore(e.text, c, ClosingBracket(c, open.value),
                                Separator(ArrayContent(c, open.value, ClosingBracket(c, open.value))) + entry)
  {
    match open
    case None => ArraySkipped(NoArray)
    case Some(start) =>
      var close := ClosingBracket(c, start);
      if close < 0 then ArraySkipped(Unmatched)
      else
        var content := ArrayContent(c, start, close);
        if Contains(content, name) then ArraySkipped(AlreadyListed)
        else Inserted(Splice(c, close, Separator(content) + entry))
  }

  /**
   * Splicing bracket-free text just before the closing bracket keeps the
   * array closed, now by the shifted bracket, and the array content becomes
   * the old content followed by the inserted text: the text landed inside
   * the array.
   */
  lemma InsertedInsideArray(c: string, start: nat, ins: string)
    requires start <= |c| && ClosingBracket(c, start) >= 0
    requires BracketFree(ins)
    ensures var close := ClosingBracket(c, start);
            var t := Splice(c, close, ins);
            && ClosingBracket(t, start) == close + |ins|
            && ArrayContent(t, start, close + |ins|) == ArrayContent(c, start, close) + ins
  {
    var close := ClosingBracket(c, start);
    InsertionKeepsArrayClosed(c, start, close, ins);
    var t := Splice(c, close, ins);
    assert t[start..close] == c[start..close] by {
      assert t[..close] == c[..close];
    }
    assert t[close..close + |ins|] == ins;
    assert t[start..close + |ins|] == t[start..close] + t[close..close + |ins|];
  }

  lemma ContainedAtEnd(x: string, y: string, name: string)
    requires Contains(y, name)
    ensures Contains(x + y, name)
  {
    var i :| 0 <= i <= |y| && IsAt(y, name, i);
    OccurrenceAfterPrefix(x, y, name, i);
    OccurrenceIsContained(x + y, name, |x| + i);
  }

  /** The array that opens at `start` is closed, and its content mentions `name`. */
  predicate ArrayLists(t: string, start: nat, name: string)
  {
    start <= |t| && ClosingBracket(t, start) >= 0 && Contains(ArrayContent(t, start, ClosingBracket(t, start)), name)
  }

  /** Once inserted, the entry makes the array mention `name` whenever the entry does. */
  lemma InsertedEntryListed(c: string, start: nat, name: string, entry: string)
    requires start <= |c|
    requires BracketFree(entry) && Contains(entry, name)
    requires InsertIntoArray(c, Some(start), name, entry).Inserted?
    ensures var t := InsertIntoArray(c, Some(start), name, entry).text;
            InsertIntoArray(t, Some(start), name, entry) == ArraySkipped(AlreadyListed)
  {
    var close := ClosingBracket(c, start);
    var sep := Separator(ArrayContent(c, start, close));
    SeparatedEntry(sep, entry, name);
    SplicedInsideListed(c, start, sep + entry, name, entry);
  }

  /** The separator and the element together: free of brackets, and still naming the module. */
  lemma SeparatedEntry(sep: string, entry: string, name: string)
    requires sep == ", " || sep == ""
    requires BracketFree(entry) && Contains(entry, name)
    ensures BracketFree(sep + entry) && Contains(sep + entry, name)
  {
    ContainedAtEnd(sep, entry, name);
  }

  /** Text naming the module, spliced in before the closing bracket, makes the array name it. */
  lemma SplicedInsideListed(c: string, start: nat, ins: string, name: string, entry: string)
    requires start <= |c| && ClosingBracket(c, start) >= 0
    requires BracketFree(ins) && Contains(ins, name)
    ensures var t := Splice(c, ClosingBracket(c, start), ins);
            InsertIntoArray(t, Some(start), name, entry) == ArraySkipped(AlreadyListed)
  {
    var close := ClosingBracket(c, start);
    InsertedInsideArray(c, start, ins);
    ContainedAtEnd(ArrayContent(c, start, close), ins, name);
  }

  /**
   * The "already listed" test is a substring test: an array that lists a
   * longer name containing `name` blocks the insertion, so `PostModule` is
   * never added to an array that holds `BlogPostModule`.
   */
  lemma ListedBySubstring(c: string, start: nat, name: string, entry: string, listed: string)
    requires start <= |c| && ClosingBracket(c, start) >= 0
    requires Contains(ArrayContent(c, start, ClosingBracket(c, start)), listed)
    requires Contains(listed, name)
    ensures InsertIntoArray(c, Some(start), name, entry) == ArraySkipped(AlreadyListed)
  {
    ContainedTransitively(ArrayContent(c, start, ClosingBracket(c, start)), listed, name);
  }

  lemma PostModuleInBlogPostModule()
    ensures Contains("BlogPostModule", "PostModule")
  {
    assert IsAt("BlogPostModule", "PostModule", 4);
  }

  // ------------------------------------------- import line plus element

  /**
   * The array to edit: with `exactFirst`, the first exact `imports: [`
   * and the regular expression only when there is none; otherwise the
   * regular expression alone.
   */
  function ArrayOpen(c: string, exactFirst: bool): (a: Option<nat>)
    ensures a.Some? ==> a.value <= |c|
    ensures exactFirst && Contains(c, ExactMarker) ==> a.Some? && IsAt(c, ExactMarker, a.value - |ExactMarker|)
    ensures exactFirst && Contains(c, ExactMarker) ==> a.Some? && forall j :: 0 <= j < a.value - |ExactMarker| ==> !IsAt(c, ExactMarker, j)
    ensures !exactFirst || !Contains(c, ExactMarker) ==> a == PatternArrayOpen(c)
  {
    if exactFirst && ExactArrayOpen(c).Some? then ExactArrayOpen(c) else PatternArrayOpen(c)
  }

  /** Of two exact `imports: [`, the first is the one edited. */
  lemma ArrayOpenTakesFirstExact()
    ensures ArrayOpen("imports: [a] imports: [b]", true) == Some(10)
  {
    var c := "imports: [a] imports: [b]";
    assert IsAt(c, ExactMarker, 0);
  }

  /** The text after the new import line, before the array edit. */
  function WithImport(c: string, imp: string): string
  {
    InsertImportLine(c, imp)
  }

  /**
   * The two edits every module registration makes: the import line after
   * the last import line, then the element into the `imports` array of the
   * text that already holds the new import line.
   */
  function ImportAndElement(c: string, imp: string, name: string, entry: string, exactFirst: bool): (e: ArrayEdit)
    ensures var c1 := WithImport(c, imp);
            var open := ArrayOpen(c1, exactFirst);
            && (e == ArraySkipped(NoArray) <==> open.None?)
            && (e == ArraySkipped(Unmatched) <==> open.Some? && ClosingBracket(c1, open.value) == -1)
            && (e == ArraySkipped(AlreadyListed) <==>
                  open.Some? && ClosingBracket(c1, open.value) >= 0
                  && Contains(ArrayContent(c1, open.value, ClosingBracket(c1, open.value)), name))
            && (e.Inserted? <==>
                  open.Some? && ClosingBracket(c1, open.value) >= 0
                  && !Contains(ArrayContent(c1, open.value, ClosingBracket(c1, open.value)), name))
    ensures var c1 := WithImport(c, imp);
            var open := ArrayOpen(c1, exactFirst);
            e.Inserted? ==>
              && open.Some? && ClosingBracket(c1, open.value) >= 0
              && InsertedBefore(e.text, c1, ClosingBracket(c1, open.value),
                                Separator(ArrayContent(c1, open.value, ClosingBracket(c1, open.value))) + entry)
    ensures e.Inserted? ==> ArrayOpen(WithImport(c, imp), exactFirst).Some?
    ensures e.Inserted? ==> |e.text| >= |WithImport(c, imp)|
    ensures e.Inserted? ==>
              SplicedFrom(e.text, WithImport(c, imp), ", " + entry) || SplicedFrom(e.text, WithImport(c, imp), entry)
  {
    var c1 := WithImport(c, imp);
    var open := ArrayOpen(c1, exactFirst);
    var e := InsertIntoArray(c1, open, name, entry);
    if e.Inserted? then
      var close := ClosingBracket(c1, open.value);
      var sep := Separator(ArrayContent(c1, open.value, close));
      assert e.text == Splice(c1, close, sep + entry);
      if sep == "" then
        assert sep + entry == entry;
        assert SplicedFrom(e.text, c1, entry);
        e
      else
        assert sep == ", ";
        assert SplicedFrom(e.text, c1, ", " + entry);
        e
    else e
  }

  /**
   * The array edit leaves the new import line intact, provided it holds no
   * closing bracket (the bracket the element goes before is then outside
   * the import line).
   */
  lemma ImportSurvivesElement(c: string, imp: string, name: string, entry: string, exactFirst: bool)
    requires ']' !in imp
    requires ImportAndElement(c, imp, name, entry, exactFirst).Inserted?
    ensures Contains(ImportAndElement(c, imp, name, entry, exactFirst).text, imp)
  {
    var c1 := WithImport(c, imp);
    var q := ImportLineOffset(c);
    var start := ArrayOpen(c1, exactFirst).value;
    var close := ClosingBracket(c1, start);
    var ins := Separator(ArrayContent(c1, start, close)) + entry;
    var t := ImportAndElement(c, imp, name, entry, exactFirst).text;
    assert t == Splice(c1, close, ins);
    assert IsAt(c1, imp, q);
    assert c1[close] == ']';
    SpliceAtBracketKeeps(c1, close, ins, imp, q);
  }

  /** Inserting at a `]` keeps an occurrence of a text that holds no `]`. */
  lemma SpliceAtBracketKeeps(s: string, close: nat, ins: string, w: string, p: int)
    requires close < |s| && s[close] == ']' && ']' !in w
    requires IsAt(s, w, p)
    ensures Contains(Splice(s, close, ins), w)
  {
    assert forall k :: p <= k < p + |w| ==> s[k] == s[p..p + |w|][k - p] == w[k - p];
    SpliceKeepsOccurrence(s, close, ins, w, p);
    OccurrenceIsContained(Splice(s, close, ins), w, if close <= p then p + |ins| else p);
  }

  /**
   * After the edit the array that opened at the same place is still
   * closed, now by the shifted bracket, and its content names the module.
   */
  lemma ElementInsideArray(c: string, imp: string, name: string, entry: string, exactFirst: bool)
    requires BracketFree(entry) && Contains(entry, name)
    requires ImportAndElement(c, imp, name, entry, exactFirst).Inserted?
    ensures var t := ImportAndElement(c, imp, name, entry, exactFirst).text;
            var start := ArrayOpen(WithImport(c, imp), exactFirst).value;
            ArrayLists(t, start, name)
  {
    var c1 := WithImport(c, imp);
    var start := ArrayOpen(c1, exactFirst).value;
    InsertedEntryListed(c1, start, name, entry);
  }

  // ------------------------------------------------------ a registration

  /**
   * What distinguishes one registration site from another: the text whose
   * presence means "already registered", the import line, the module name
   * the array is checked for, the array element, how the array is found,
   * and whether the file is written when the array edit did not happen.
   */
  datatype Site = Site(
    guard: string,
    imp: string,
    name: string,
    entry: string,
    exactFirst: bool,
    writeWithoutElement: bool)

  /**
   * One registration: nothing when the file is missing or already holds
   * the guard text; otherwise the import line and the array element, the
   * file being written after a successful array edit, and after a failed
   * one only at sites that write without the element.
   */
  function Register(file: Option<string>, s: Site): (o: Outcome)
    ensures file.None? <==> o == NotWritten(FileMissing)
    ensures file.Some? ==> (o == NotWritten(AlreadyRegistered) <==> Contains(file.value, s.guard))
    ensures s.writeWithoutElement && file.Some? ==> (o.Written? <==> !Contains(file.value, s.guard))
    ensures o.Written? ==>
              && file.Some?
              && !Contains(file.value, s.guard)
              && var c1 := WithImport(file.value, s.imp);
                 || (s.writeWithoutElement && o.text == c1)
                 || SplicedFrom(o.text, c1, ", " + s.entry)
                 || SplicedFrom(o.text, c1, s.entry)
    ensures o.Written? && !s.writeWithoutElement ==>
              ImportAndElement(file.value, s.imp, s.name, s.entry, s.exactFirst).Inserted?
    ensures file.Some? && !Contains(file.value, s.guard) ==>
              var e := ImportAndElement(file.value, s.imp, s.name, s.entry, s.exactFirst);
              e.Inserted? ==> o == Written(e.text)
    ensures file.Some? && !Contains(file.value, s.guard) ==>
              var e := ImportAndElement(file.value, s.imp, s.name, s.entry, s.exactFirst);
              e.ArraySkipped? ==>
                o == (if s.writeWithoutElement then Written(WithImport(file.value, s.imp)) else NotWritten(e.reason))
  {
    match file
    case None => NotWritten(FileMissing)
    case Some(c) =>
      if Contains(c, s.guard) then NotWritten(AlreadyRegistered)
      else
        match ImportAndElement(c, s.imp, s.name, s.entry, s.exactFirst)
        case Inserted(t) => Written(t)
        case ArraySkipped(why) =>
          if s.writeWithoutElement then Written(WithImport(c, s.imp)) else NotWritten(why)
  }

  /**
   * The written file, stated on positions of the text that holds the new
   * import line: when the array is found, closed and does not yet name the
   * module, the element (after its separator) goes in just before the
   * closing bracket; otherwise the file holds the import line alone, or is
   * not written, according to the site.
   */
  lemma RegisterPlacesElement(c: string, s: Site)
    requires !Contains(c, s.guard)
    ensures var c1 := WithImport(c, s.imp);
            var open := ArrayOpen(c1, s.exactFirst);
            var o := Register(Some(c), s);
            if open.Some? && ClosingBracket(c1, open.value) >= 0
               && !Contains(ArrayContent(c1, open.value, ClosingBracket(c1, open.value)), s.name)
            then
              var close := ClosingBracket(c1, open.value);
              o == Written(Splice(c1, close, Separator(ArrayContent(c1, open.value, close)) + s.entry))
            else
              (o.Written? <==> s.writeWithoutElement) && (o.Written? ==> o.text == c1)
  {
  }

  /**
   * Registration is idempotent when the import line holds the guard text
   * and no closing bracket: whatever was written holds the import line, so
   * a second run stops at the guard.
   */
  lemma RegisterIdempotent(c: string, s: Site)
    requires ']' !in s.imp && Contains(s.imp, s.guard)
    requires Register(Some(c), s).Written?
    ensures Register(Some(Register(Some(c), s).text), s) == NotWritten(AlreadyRegistered)
  {
    var t := Register(Some(c), s).text;
    var e := ImportAndElement(c, s.imp, s.name, s.entry, s.exactFirst);
    if e.Inserted? {
      ImportSurvivesElement(c, s.imp, s.name, s.entry, s.exactFirst);
    } else {
      OccurrenceIsContained(WithImport(c, s.imp), s.imp, ImportLineOffset(c));
    }
    assert Contains(t, s.imp);
    ContainedTransitively(t, s.imp, s.guard);
  }

  /**
   * Registration is idempotent, whatever brackets the import line holds,
   * when both the import line and the array element hold the guard text:
   * the written file holds one or the other.
   */
  lemma RegisterIdempotentViaEntry(c: string, s: Site)
    requires Contains(s.imp, s.guard) && Contains(s.entry, s.guard)
    requires Register(Some(c), s).Written?
    ensures Register(Some(Register(Some(c), s).text), s) == NotWritten(AlreadyRegistered)
  {
    var t := Register(Some(c), s).text;
    var c1 := WithImport(c, s.imp);
    if t == c1 {
      OccurrenceIsContained(c1, s.imp, ImportLineOffset(c));
      ContainedTransitively(t, s.imp, s.guard);
    } else if SplicedFrom(t, c1, ", " + s.entry) {
      SplicedEntryHolds(t, c1, ", ", s.entry, s.guard);
    } else {
      SplicedEntryHolds(t, c1, "", s.entry, s.guard);
    }
  }

  /** Text spliced in with a separator before it holds whatever the element holds. */
  lemma SplicedEntryHolds(t: string, c: string, sep: string, entry: string, w: string)
    requires SplicedFrom(t, c, sep + entry) && Contains(entry, w)
    ensures Contains(t, w)
  {
    var q :| 0 <= q <= |c| && t == Splice(c, q, sep + entry);
    assert sep + entry == sep + entry + "";
    OccurrenceOfMiddle(t, sep, entry, "", q);
    OccurrenceIsContained(t, entry, q + |sep|);
    ContainedTransitively(t, entry, w);
  }

  /**
   * When the array edit happened, the written file lists the module inside
   * the array that opened at the same place, which is still closed.
   */
  lemma RegisterListsModule(c: string, s: Site)
    requires BracketFree(s.entry) && Contains(s.entry, s.name)
    requires !Contains(c, s.guard)
    requires ImportAndElement(c, s.imp, s.name, s.entry, s.exactFirst).Inserted?
    ensures var t := Register(Some(c), s).text;
            var start := ArrayOpen(WithImport(c, s.imp), s.exactFirst).value;
            ArrayLists(t, start, s.name)
  {
    assert Register(Some(c), s).text == ImportAndElement(c, s.imp, s.name, s.entry, s.exactFirst).text;
    ElementInsideArray(c, s.imp, s.name, s.entry, s.exactFirst);
  }
}
