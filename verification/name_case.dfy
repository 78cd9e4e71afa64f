/**
 * The name transformer of `src/lib/stringUtils.ts` (duplicated at the top of
 * `src/create_module.ts`): Pascal, camel, kebab, snake and upper-snake case,
 * plus the naive suffix pluralizer of `src/create_module.ts`.
 *
 * The JavaScript regular expressions are written out as scanners. `\w` and
 * upper/lower case are the ASCII notions JavaScript uses for `\w` and
 * `[a-z]`/`[A-Z]`; `toUpperCase`/`toLowerCase` are modelled on ASCII letters
 * only and leave every other character unchanged.
 */
module NameCase {
  import opened Text

  predicate IsUpper(c: char) { 'A' <= c <= 'Z' }
  predicate IsLower(c: char) { 'a' <= c <= 'z' }
  predicate IsDigit(c: char) { '0' <= c <= '9' }

  /** The regular-expression class `\w`. */
  predicate IsWordChar(c: char)
  {
    IsUpper(c) || IsLower(c) || IsDigit(c) || c == '_'
  }

  function Upper(c: char): (r: char)
    ensures !IsLower(r)
    ensures IsUpper(c) ==> r == c
    ensures !IsLower(c) ==> r == c
  {
    if IsLower(c) then (c as int - 32) as char else c
  }

  function Lower(c: char): (r: char)
    ensures !IsUpper(r)
    ensures IsUpper(c) ==> IsLower(r)
    ensures !IsUpper(c) ==> r == c
  {
    if IsUpper(c) then (c as int + 32) as char else c
  }

  /** `toUpperCase` on ASCII letters. */
  function UpperAll(s: string): (r: string)
    ensures |r| == |s|
    ensures forall k :: 0 <= k < |s| ==> r[k] == Upper(s[k])
  {
    seq(|s|, k requires 0 <= k < |s| => Upper(s[k]))
  }

  /** `toLowerCase` on ASCII letters. */
  function LowerAll(s: string): (r: string)
    ensures |r| == |s|
    ensures forall k :: 0 <= k < |s| ==> r[k] == Lower(s[k])
  {
    seq(|s|, k requires 0 <= k < |s| => Lower(s[k]))
  }

  lemma LowerAllAppend(a: string, b: string)
    ensures LowerAll(a + b) == LowerAll(a) + LowerAll(b)
  {
  }

  // ---------------------------------------------------------------- Pascal

  /** Position `i` is matched by `(?:^\w|[A-Z]|\b\w)`: a word character at a word start, or any capital. */
  predicate CapitalizedAt(s: string, i: int)
    requires 0 <= i < |s|
  {
    || (i == 0 && IsWordChar(s[0]))
    || IsUpper(s[i])
    || (IsWordChar(s[i]) && (i == 0 || !IsWordChar(s[i - 1])))
  }

  /** The first `replace` of `toPascalCase`: every match upper-cased, the rest kept. */
  function CapitalizeWords(s: string): (r: string)
    ensures |r| == |s|
  {
    seq(|s|, i requires 0 <= i < |s| => if CapitalizedAt(s, i) then Upper(s[i]) else s[i])
  }

  /** The class `[\s-_]`: white space, hyphen and underscore. */
  predicate IsWordSeparator(c: char)
  {
    IsSpace(c) || c == '-' || c == '_'
  }

  /** The second `replace` of `toPascalCase`: every run of `[\s-_]` deleted. */
  function RemoveSeparators(s: string): (r: string)
    ensures |r| <= |s|
    ensures forall k :: 0 <= k < |r| ==> !IsWordSeparator(r[k])
  {
    if |s| == 0 then ""
    else if IsWordSeparator(s[0]) then RemoveSeparators(s[1..])
    else [s[0]] + RemoveSeparators(s[1..])
  }

  /** `toPascalCase(str)`. */
  function PascalCase(s: string): (r: string)
    ensures |r| <= |s|
    ensures forall k :: 0 <= k < |r| ==> !IsWordSeparator(r[k])
  {
    RemoveSeparators(CapitalizeWords(s))
  }

  /** The only characters `toPascalCase` changes are lower-case letters at the start of a word, which become capitals. */
  lemma CapitalizeOnlyWordStarts(s: string, i: int)
    requires 0 <= i < |s|
    ensures CapitalizeWords(s)[i] != s[i] <==>
              IsLower(s[i]) && (i == 0 || !IsWordChar(s[i - 1]))
    ensures Lower(CapitalizeWords(s)[i]) == Lower(s[i])
  {
  }

  /** Two texts that agree up to letter case and agree on where the separators are. */
  predicate SameUpToCase(a: string, b: string)
  {
    && |a| == |b|
    && forall k :: 0 <= k < |a| ==> Lower(a[k]) == Lower(b[k]) && (IsWordSeparator(a[k]) <==> IsWordSeparator(b[k]))
  }

  lemma {:induction false} RemoveSeparatorsUpToCase(a: string, b: string)
    requires SameUpToCase(a, b)
    ensures LowerAll(RemoveSeparators(a)) == LowerAll(RemoveSeparators(b))
    decreases |a|
  {
    if |a| > 0 {
      assert SameUpToCase(a[1..], b[1..]) by {
        forall k | 0 <= k < |a| - 1 ensures Lower(a[1..][k]) == Lower(b[1..][k]) {
          assert a[1..][k] == a[k + 1];
        }
      }
      RemoveSeparatorsUpToCase(a[1..], b[1..]);
      if !IsWordSeparator(a[0]) {
        LowerAllAppend([a[0]], RemoveSeparators(a[1..]));
        LowerAllAppend([b[0]], RemoveSeparators(b[1..]));
      }
    }
  }

  /**
   * `toPascalCase` only deletes separators and changes letter case: ignoring
   * case, its result is the input with every `[\s-_]` character removed.
   */
  lemma PascalKeepsLettersInOrder(s: string)
    ensures LowerAll(PascalCase(s)) == LowerAll(RemoveSeparators(s))
  {
    var c := CapitalizeWords(s);
    forall k | 0 <= k < |s|
      ensures Lower(c[k]) == Lower(s[k]) && (IsWordSeparator(c[k]) <==> IsWordSeparator(s[k]))
    {
      CapitalizeOnlyWordStarts(s, k);
    }
    RemoveSeparatorsUpToCase(c, s);
  }

  // ----------------------------------------------------------------- camel

  /** `toCamelCase(str)`: the Pascal form with its first character lower-cased. */
  function CamelCase(s: string): (r: string)
    ensures |r| == |PascalCase(s)|
    ensures |r| > 0 ==> r[0] == Lower(PascalCase(s)[0]) && r[1..] == PascalCase(s)[1..]
  {
    var p := PascalCase(s);
    if |p| == 0 then "" else [Lower(p[0])] + p[1..]
  }

  /** The camel and Pascal forms agree up to letter case, and the camel form has no separators either. */
  lemma CamelAgreesWithPascal(s: string)
    ensures LowerAll(CamelCase(s)) == LowerAll(PascalCase(s))
    ensures forall k :: 0 <= k < |CamelCase(s)| ==> !IsWordSeparator(CamelCase(s)[k])
    ensures |CamelCase(s)| > 0 ==> !IsUpper(CamelCase(s)[0])
  {
    var p := PascalCase(s);
    var c := CamelCase(s);
    if |p| > 0 {
      assert forall k :: 1 <= k < |c| ==> c[k] == p[k];
      assert Lower(Lower(p[0])) == Lower(p[0]);
    }
  }

  // ------------------------------------------------------ kebab and snake

  /** The replacement `/([a-z])([A-Z])/g -> '$1' + mark + '$2'`. */
  function MarkCaseBoundaries(s: string, mark: char): (r: string)
    ensures |r| >= |s|
    decreases |s|
  {
    if |s| <= 1 then s
    else if IsLower(s[0]) && IsUpper(s[1]) then [s[0], mark] + MarkCaseBoundaries(s[1..], mark)
    else [s[0]] + MarkCaseBoundaries(s[1..], mark)
  }

  /** No lower-case letter is directly followed by a capital. */
  predicate NoCaseBoundary(s: string)
  {
    forall k :: 0 <= k < |s| - 1 ==> !(IsLower(s[k]) && IsUpper(s[k + 1]))
  }

  /** The number of places in `s` where a lower-case letter is directly followed by a capital. */
  function Boundaries(s: string): nat
  {
    if |s| <= 1 then 0
    else (if IsLower(s[0]) && IsUpper(s[1]) then 1 else 0) + Boundaries(s[1..])
  }

  /** `s` with every occurrence of `m` deleted. */
  function Erase(s: string, m: char): (r: string)
    ensures m !in r
  {
    if |s| == 0 then "" else (if s[0] == m then "" else [s[0]]) + Erase(s[1..], m)
  }

  lemma {:induction false} EraseAppend(a: string, b: string, m: char)
    ensures Erase(a + b, m) == Erase(a, m) + Erase(b, m)
    decreases |a|
  {
    if |a| > 0 {
      assert (a + b)[1..] == a[1..] + b;
      EraseAppend(a[1..], b, m);
    } else {
      assert a + b == b;
    }
  }

  /**
   * Marking inserts the mark between every lower-case/capital pair and does
   * nothing else: afterwards no such pair is adjacent, the first character is
   * kept, erasing the marks gives back the input with its own marks erased,
   * exactly one character was added per pair, and each input character
   * sits shifted by the number of pairs up to it, so every added mark
   * separates a pair and no character, mark or not, went anywhere else.
   */
  lemma {:induction false} MarkCaseBoundariesSpec(s: string, mark: char)
    requires !IsLower(mark) && !IsUpper(mark)
    ensures NoCaseBoundary(MarkCaseBoundaries(s, mark))
    ensures |s| > 0 ==> MarkCaseBoundaries(s, mark)[0] == s[0]
    ensures Erase(MarkCaseBoundaries(s, mark), mark) == Erase(s, mark)
    ensures |MarkCaseBoundaries(s, mark)| == |s| + Boundaries(s)
    ensures KeepsPositions(s, MarkCaseBoundaries(s, mark))
  {
    MarkSeparates(s, mark);
    MarkKeepsPositions(s, mark);
  }

  /** The marking pass leaves no adjacent pair, keeps the first character, and only adds marks. */
  lemma {:induction false} MarkSeparates(s: string, mark: char)
    requires !IsLower(mark) && !IsUpper(mark)
    ensures NoCaseBoundary(MarkCaseBoundaries(s, mark))
    ensures |s| > 0 ==> MarkCaseBoundaries(s, mark)[0] == s[0]
    ensures Erase(MarkCaseBoundaries(s, mark), mark) == Erase(s, mark)
    decreases |s|
  {
    var r := MarkCaseBoundaries(s, mark);
    if |s| > 1 {
      var t := MarkCaseBoundaries(s[1..], mark);
      MarkSeparates(s[1..], mark);
      assert t[0] == s[1];
      if IsLower(s[0]) && IsUpper(s[1]) {
        assert r == [s[0], mark] + t;
        NoBoundaryCons(mark, t);
        NoBoundaryCons(s[0], [mark] + t);
        assert [s[0], mark] + t == [s[0]] + ([mark] + t);
        MarkStepErase(s, mark, [s[0], mark], t);
      } else {
        assert r == [s[0]] + t;
        NoBoundaryCons(s[0], t);
        MarkStepErase(s, mark, [s[0]], t);
      }
    }
  }

  /** Each character of `s` appears in `r` shifted by the number of pairs up to and including it. */
  predicate KeepsPositions(s: string, r: string)
  {
    forall k :: 0 <= k < |s| ==> k + Boundaries(s[..k + 1]) < |r| && r[k + Boundaries(s[..k + 1])] == s[k]
  }

  /** The marking pass adds one character per pair and keeps every input character, shifted by the pairs before it. */
  lemma {:induction false} MarkKeepsPositions(s: string, mark: char)
    ensures |MarkCaseBoundaries(s, mark)| == |s| + Boundaries(s)
    ensures KeepsPositions(s, MarkCaseBoundaries(s, mark))
    decreases |s|
  {
    MarkLength(s, mark);
    var r := MarkCaseBoundaries(s, mark);
    forall k | 0 <= k < |s|
      ensures k + Boundaries(s[..k + 1]) < |r| && r[k + Boundaries(s[..k + 1])] == s[k]
    {
      MarkKeepsPosition(s, mark, k);
    }
  }

  /** The marking pass adds exactly one character per lower-case/capital pair. */
  lemma {:induction false} MarkLength(s: string, mark: char)
    ensures |MarkCaseBoundaries(s, mark)| == |s| + Boundaries(s)
    decreases |s|
  {
    if |s| > 1 {
      MarkLength(s[1..], mark);
    }
  }

  /** The character at `k` lands `Boundaries(s[..k + 1])` places further right. */
  lemma {:induction false} MarkKeepsPosition(s: string, mark: char, k: nat)
    requires k < |s|
    ensures k + Boundaries(s[..k + 1]) < |MarkCaseBoundaries(s, mark)|
    ensures MarkCaseBoundaries(s, mark)[k + Boundaries(s[..k + 1])] == s[k]
    decreases |s|
  {
    var r := MarkCaseBoundaries(s, mark);
    if k == 0 {
      assert Boundaries(s[..1]) == 0;
    } else {
      var t := MarkCaseBoundaries(s[1..], mark);
      var b := if IsLower(s[0]) && IsUpper(s[1]) then 1 else 0;
      assert r == (if b == 1 then [s[0], mark] else [s[0]]) + t;
      MarkKeepsPosition(s[1..], mark, k - 1);
      BoundariesOfPrefix(s, k);
      assert s[1..][k - 1] == s[k];
      assert s[1..][..k - 1 + 1] == s[1..][..k];
    }
  }

  /** The pairs in a prefix of two or more characters: the first pair, then those of the rest. */
  lemma BoundariesOfPrefix(s: string, k: nat)
    requires 1 <= k < |s|
    ensures Boundaries(s[..k + 1]) == (if IsLower(s[0]) && IsUpper(s[1]) then 1 else 0) + Boundaries(s[1..][..k])
  {
    assert s[..k + 1][1..] == s[1..][..k];
  }

  /** One step of marking keeps the text up to marks: the first character, perhaps a mark, then the rest. */
  lemma MarkStepErase(s: string, mark: char, head: string, t: string)
    requires |s| > 0 && (head == [s[0]] || (head == [s[0], mark] && s[0] != mark))
    requires Erase(t, mark) == Erase(s[1..], mark)
    ensures Erase(head + t, mark) == Erase(s, mark)
  {
    EraseAppend(head, t, mark);
    EraseAppend([s[0]], s[1..], mark);
    assert [s[0]] + s[1..] == s;
    if |head| == 2 {
      assert head[1..] == [mark];
      assert Erase(head, mark) == [s[0]] == Erase([s[0]], mark);
    }
  }

  lemma NoBoundaryCons(c: char, t: string)
    requires NoCaseBoundary(t) && (|t| > 0 ==> !(IsLower(c) && IsUpper(t[0])))
    ensures NoCaseBoundary([c] + t)
  {
    var u := [c] + t;
    forall k | 0 <= k < |u| - 1 ensures !(IsLower(u[k]) && IsUpper(u[k + 1])) {
      if k > 0 {
        assert u[k] == t[k - 1] && u[k + 1] == t[k];
      }
    }
  }

  /** The characters a `[\s_]+` (kebab) or `[\s-]+` (snake) run is made of; `other` is `_` or `-`. */
  predicate InRun(c: char, other: char)
  {
    IsSpace(c) || c == other
  }

  /** `s` without its leading run characters. */
  function DropRun(s: string, other: char): (r: string)
    ensures |r| <= |s| && r == s[|s| - |r|..]
    ensures |r| > 0 ==> !InRun(r[0], other)
  {
    if |s| > 0 && InRun(s[0], other) then DropRun(s[1..], other) else s
  }

  /** The replacement `/[\s<other>]+/g -> joiner`: each maximal run becomes one joiner. */
  function CollapseRuns(s: string, other: char, joiner: char): (r: string)
    requires !InRun(joiner, other)
    ensures |r| <= |s|
    ensures forall k :: 0 <= k < |r| ==> !InRun(r[k], other)
    decreases |s|
  {
    if |s| == 0 then ""
    else if InRun(s[0], other) then [joiner] + CollapseRuns(DropRun(s[1..], other), other, joiner)
    else [s[0]] + CollapseRuns(s[1..], other, joiner)
  }

  /** The common shape of `toKebabCase` and `toSnakeCase`. */
  function DelimitedCase(s: string, joiner: char, other: char): (r: string)
    requires !InRun(joiner, other) && !IsLower(joiner) && !IsUpper(joiner)
    requires !IsLower(other)
    ensures forall k :: 0 <= k < |r| ==> !IsUpper(r[k]) && !IsSpace(r[k]) && r[k] != other
  {
    LowerAll(CollapseRuns(MarkCaseBoundaries(s, joiner), other, joiner))
  }

  /** `toKebabCase(str)`. */
  function KebabCase(s: string): (r: string)
    ensures forall k :: 0 <= k < |r| ==> !IsUpper(r[k]) && !IsSpace(r[k]) && r[k] != '_'
  {
    DelimitedCase(s, '-', '_')
  }

  /** `toSnakeCase(str)`. */
  function SnakeCase(s: string): (r: string)
    ensures forall k :: 0 <= k < |r| ==> !IsUpper(r[k]) && !IsSpace(r[k]) && r[k] != '-'
  {
    DelimitedCase(s, '_', '-')
  }

  /** `toUpperSnakeCase(str)`: the snake form, upper-cased. */
  function UpperSnakeCase(s: string): (r: string)
    ensures |r| == |SnakeCase(s)|
    ensures forall k :: 0 <= k < |r| ==> !IsLower(r[k]) && !IsSpace(r[k]) && r[k] != '-'
  {
    UpperAll(SnakeCase(s))
  }

  lemma {:induction false} CollapseIdleWithoutRuns(s: string, other: char, joiner: char)
    requires !InRun(joiner, other)
    requires forall k :: 0 <= k < |s| ==> !InRun(s[k], other)
    ensures CollapseRuns(s, other, joiner) == s
    decreases |s|
  {
    if |s| > 0 {
      CollapseIdleWithoutRuns(s[1..], other, joiner);
      assert [s[0]] + s[1..] == s;
    }
  }

  /** Text already in delimited form is left alone: the transform is idempotent. */
  lemma DelimitedCaseIdempotent(s: string, joiner: char, other: char)
    requires !InRun(joiner, other) && !IsLower(joiner) && !IsUpper(joiner)
    requires !IsLower(other)
    ensures DelimitedCase(DelimitedCase(s, joiner, other), joiner, other) == DelimitedCase(s, joiner, other)
  {
    var t := DelimitedCase(s, joiner, other);
    MarkIdle(t, joiner);
    CollapseIdleWithoutRuns(t, other, joiner);
  }

  /** `toKebabCase(toKebabCase(s)) == toKebabCase(s)`. */
  lemma KebabIdempotent(s: string)
    ensures KebabCase(KebabCase(s)) == KebabCase(s)
  {
    DelimitedCaseIdempotent(s, '-', '_');
  }

  /** `toSnakeCase(toSnakeCase(s)) == toSnakeCase(s)`. */
  lemma SnakeIdempotent(s: string)
    ensures SnakeCase(SnakeCase(s)) == SnakeCase(s)
  {
    DelimitedCaseIdempotent(s, '_', '-');
  }

  /** Lower-casing the upper-snake form gives back the snake form. */
  lemma UpperSnakeLowersToSnake(s: string)
    ensures LowerAll(UpperSnakeCase(s)) == SnakeCase(s)
  {
  }

  /** A prefix free of separators passes through `RemoveSeparators` unchanged. */
  lemma {:induction false} RemoveSeparatorsAfterWord(a: string, b: string)
    requires forall k :: 0 <= k < |a| ==> !IsWordSeparator(a[k])
    ensures RemoveSeparators(a + b) == a + RemoveSeparators(b)
    decreases |a|
  {
    if |a| == 0 {
      assert a + b == b;
    } else {
      assert (a + b)[0] == a[0] && (a + b)[1..] == a[1..] + b;
      RemoveSeparatorsAfterWord(a[1..], b);
      var tail := RemoveSeparators(b);
      assert RemoveSeparators(a + b) == [a[0]] + (a[1..] + tail);
      ConcatRight([a[0]], a[1..], tail);
      assert [a[0]] + a[1..] == a;
    }
  }

  /** A prefix free of run characters passes through `CollapseRuns` unchanged. */
  lemma {:induction false} CollapseRunsAfterWord(a: string, b: string, other: char, joiner: char)
    requires !InRun(joiner, other)
    requires forall k :: 0 <= k < |a| ==> !InRun(a[k], other)
    ensures CollapseRuns(a + b, other, joiner) == a + CollapseRuns(b, other, joiner)
    decreases |a|
  {
    if |a| == 0 {
      assert a + b == b;
    } else {
      assert (a + b)[0] == a[0] && (a + b)[1..] == a[1..] + b;
      CollapseRunsAfterWord(a[1..], b, other, joiner);
      var tail := CollapseRuns(b, other, joiner);
      assert CollapseRuns(a + b, other, joiner) == [a[0]] + (a[1..] + tail);
      ConcatRight([a[0]], a[1..], tail);
      assert [a[0]] + a[1..] == a;
    }
  }

  // ------------------------------------------- canonical multi-word names

  /** A lower-case ASCII word of at least two letters, such as `blog` or `post`. */
  predicate IsLowerWord(w: string)
  {
    |w| >= 2 && forall k :: 0 <= k < |w| ==> IsLower(w[k])
  }

  predicate AllLowerWords(ws: seq<string>)
  {
    forall i :: 0 <= i < |ws| ==> IsLowerWord(ws[i])
  }

  /** The word with its first letter capitalised. */
  function Capitalized(w: string): string
    requires |w| > 0
  {
    [Upper(w[0])] + w[1..]
  }

  /** The capitalised words, concatenated: the Pascal-case spelling of `ws`. */
  function PascalWords(ws: seq<string>): string
    requires AllLowerWords(ws)
  {
    if |ws| == 0 then "" else Capitalized(ws[0]) + PascalWords(ws[1..])
  }

  lemma CapitalizeWordsAroundHyphen(x: string, y: string)
    ensures CapitalizeWords(x + "-" + y) == CapitalizeWords(x) + "-" + CapitalizeWords(y)
  {
    var s := x + "-" + y;
    var r := CapitalizeWords(x) + "-" + CapitalizeWords(y);
    forall i | 0 <= i < |s| ensures CapitalizeWords(s)[i] == r[i] {
      if i < |x| {
        assert s[i] == x[i];
        assert i > 0 ==> s[i - 1] == x[i - 1];
      } else if i > |x| {
        assert s[i] == y[i - |x| - 1];
        assert i - 1 > |x| ==> s[i - 1] == y[i - |x| - 2];
      }
    }
  }

  lemma CapitalizeLowerWord(w: string)
    requires IsLowerWord(w)
    ensures CapitalizeWords(w) == Capitalized(w)
  {
    var c := CapitalizeWords(w);
    forall i | 0 <= i < |w| ensures c[i] == Capitalized(w)[i] {
      if i > 0 {
        assert IsWordChar(w[i - 1]);
      }
    }
  }

  lemma {:induction false} RemoveSeparatorsAppend(a: string, b: string)
    ensures RemoveSeparators(a + b) == RemoveSeparators(a) + RemoveSeparators(b)
    decreases |a|
  {
    if |a| == 0 {
      assert a + b == b;
    } else {
      assert (a + b)[1..] == a[1..] + b;
      RemoveSeparatorsAppend(a[1..], b);
    }
  }

  /** Hyphen-separated lower-case words become the concatenation of the capitalised words. */
  lemma {:induction false} PascalOfHyphenated(ws: seq<string>)
    requires |ws| > 0 && AllLowerWords(ws)
    ensures PascalCase(Join(ws, "-")) == PascalWords(ws)
    decreases |ws|
  {
    var w := ws[0];
    CapitalizeLowerWord(w);
    RemoveSeparatorsAfterWord(Capitalized(w), "");
    assert Capitalized(w) + "" == Capitalized(w);
    if |ws| == 1 {
      assert PascalWords(ws) == Capitalized(w) + PascalWords([]);
    } else {
      var rest := Join(ws[1..], "-");
      PascalOfHyphenated(ws[1..]);
      CapitalizeWordsAroundHyphen(w, rest);
      RemoveSeparatorsAfterWord(Capitalized(w), "-" + CapitalizeWords(rest));
      ConcatRight(Capitalized(w), "-", CapitalizeWords(rest));
      assert ("-" + CapitalizeWords(rest))[1..] == CapitalizeWords(rest);
    }
  }

  /** Marking splits at a junction: inside each half as before, plus a mark where a lower-case letter meets a capital. */
  lemma {:induction false} MarkAppend(x: string, y: string, mark: char)
    requires |x| > 0 && |y| > 0
    ensures MarkCaseBoundaries(x + y, mark) ==
              MarkCaseBoundaries(x, mark)
              + (if IsLower(x[|x| - 1]) && IsUpper(y[0]) then [mark] else [])
              + MarkCaseBoundaries(y, mark)
    decreases |x|
  {
    var s := x + y;
    var m: string := if IsLower(x[|x| - 1]) && IsUpper(y[0]) then [mark] else [];
    var my := MarkCaseBoundaries(y, mark);
    if |x| == 1 {
      assert s[0] == x[0] && s[1] == y[0] && s[1..] == y;
      assert MarkCaseBoundaries(s, mark) == [x[0]] + m + my;
      assert MarkCaseBoundaries(x, mark) == [x[0]];
    } else {
      var h: string := if IsLower(x[0]) && IsUpper(x[1]) then [x[0], mark] else [x[0]];
      assert s[0] == x[0] && s[1] == x[1] && s[1..] == x[1..] + y;
      MarkAppend(x[1..], y, mark);
      assert x[1..][|x[1..]| - 1] == x[|x| - 1];
      var mx := MarkCaseBoundaries(x[1..], mark);
      assert MarkCaseBoundaries(s, mark) == h + (mx + m + my);
      assert MarkCaseBoundaries(x, mark) == h + mx;
      ConcatRegroup(h, mx, m, my);
    }
  }

  lemma ConcatRight(a: string, b: string, c: string)
    ensures a + b + c == a + (b + c)
  {
  }

  lemma ConcatRegroup(a: string, b: string, c: string, d: string)
    ensures a + (b + c + d) == a + b + c + d
  {
  }

  /** Text with no lower-case/capital pair is left alone by marking. */
  lemma {:induction false} MarkIdle(s: string, mark: char)
    requires NoCaseBoundary(s)
    ensures MarkCaseBoundaries(s, mark) == s
    decreases |s|
  {
    if |s| > 1 {
      assert NoCaseBoundary(s[1..]) by {
        forall k | 0 <= k < |s| - 2 ensures !(IsLower(s[1..][k]) && IsUpper(s[1..][k + 1])) {
          assert s[1..][k] == s[k + 1] && s[1..][k + 1] == s[k + 2];
        }
      }
      MarkIdle(s[1..], mark);
      assert [s[0]] + s[1..] == s;
    }
  }

  /** Marking a Pascal-case spelling puts the mark between consecutive words. */
  lemma {:induction false} MarkPascalWords(ws: seq<string>, mark: char)
    requires |ws| > 0 && AllLowerWords(ws)
    ensures MarkCaseBoundaries(PascalWords(ws), mark) == Join(CapitalizedAll(ws), [mark])
    decreases |ws|
  {
    var w := ws[0];
    var c := Capitalized(w);
    assert NoCaseBoundary(c);
    MarkIdle(c, mark);
    if |ws| == 1 {
      assert PascalWords(ws) == c + PascalWords([]);
      assert c + "" == c;
    } else {
      var rest := PascalWords(ws[1..]);
      assert rest == Capitalized(ws[1]) + PascalWords(ws[2..]);
      MarkAppend(c, rest, mark);
      MarkPascalWords(ws[1..], mark);
      assert CapitalizedAll(ws)[1..] == CapitalizedAll(ws[1..]);
    }
  }

  function CapitalizedAll(ws: seq<string>): (r: seq<string>)
    requires AllLowerWords(ws)
    ensures |r| == |ws|
    ensures forall i :: 0 <= i < |ws| ==> r[i] == Capitalized(ws[i])
  {
    seq(|ws|, i requires 0 <= i < |ws| => Capitalized(ws[i]))
  }

  /** The capitalised words joined by a non-letter, non-run joiner contain no run character. */
  lemma {:induction false} JoinedCapitalsHaveNoRun(ws: seq<string>, joiner: char, other: char)
    requires AllLowerWords(ws) && !InRun(joiner, other) && !IsLower(other) && !IsUpper(other)
    ensures forall k :: 0 <= k < |Join(CapitalizedAll(ws), [joiner])| ==> !InRun(Join(CapitalizedAll(ws), [joiner])[k], other)
    decreases |ws|
  {
    if |ws| > 1 {
      JoinedCapitalsHaveNoRun(ws[1..], joiner, other);
      assert CapitalizedAll(ws)[1..] == CapitalizedAll(ws[1..]);
    }
  }

  /** Lower-casing the capitalised words joined by a non-capital gives the words joined by it. */
  lemma {:induction false} LowerJoinedCapitals(ws: seq<string>, joiner: char)
    requires AllLowerWords(ws) && !IsUpper(joiner)
    ensures LowerAll(Join(CapitalizedAll(ws), [joiner])) == Join(ws, [joiner])
    decreases |ws|
  {
    if |ws| > 0 {
      var w := ws[0];
      assert LowerAll(Capitalized(w)) == w;
      if |ws| > 1 {
        LowerJoinedCapitals(ws[1..], joiner);
        assert CapitalizedAll(ws)[1..] == CapitalizedAll(ws[1..]);
        LowerAllAppend(Capitalized(w) + [joiner], Join(CapitalizedAll(ws[1..]), [joiner]));
        LowerAllAppend(Capitalized(w), [joiner]);
      }
    }
  }

  /** The delimited form of a Pascal-case spelling is the lower-case words joined by the joiner. */
  lemma DelimitedOfPascalWords(ws: seq<string>, joiner: char, other: char)
    requires |ws| > 0 && AllLowerWords(ws)
    requires !InRun(joiner, other) && !IsLower(joiner) && !IsUpper(joiner) && !IsLower(other) && !IsUpper(other)
    ensures DelimitedCase(PascalWords(ws), joiner, other) == Join(ws, [joiner])
  {
    MarkPascalWords(ws, joiner);
    JoinedCapitalsHaveNoRun(ws, joiner, other);
    CollapseIdleWithoutRuns(Join(CapitalizedAll(ws), [joiner]), other, joiner);
    LowerJoinedCapitals(ws, joiner);
  }

  /**
   * Round trip between the two spellings the generator uses for one name:
   * the kebab form of the Pascal form of a canonical kebab name is that
   * name, and its snake form uses underscores in place of the hyphens.
   */
  lemma KebabPascalRoundTrip(ws: seq<string>)
    requires |ws| > 0 && AllLowerWords(ws)
    ensures KebabCase(PascalCase(Join(ws, "-"))) == Join(ws, "-")
    ensures SnakeCase(PascalCase(Join(ws, "-"))) == Join(ws, "_")
  {
    PascalOfHyphenated(ws);
    DelimitedOfPascalWords(ws, '-', '_');
    DelimitedOfPascalWords(ws, '_', '-');
  }

  /** Canonical kebab names are their own kebab form, and their snake form swaps hyphens for underscores. */
  lemma DelimitedOfHyphenated(ws: seq<string>)
    requires |ws| > 0 && AllLowerWords(ws)
    ensures KebabCase(Join(ws, "-")) == Join(ws, "-")
    ensures SnakeCase(Join(ws, "-")) == Join(ws, "_")
  {
    var k := Join(ws, "-");
    JoinedWordsHaveNoCapital(ws, '-');
    JoinedWordsHaveNoCapital(ws, '_');
    MarkIdle(k, '-');
    MarkIdle(k, '_');
    HyphenatedHasNoUnderscore(ws);
    CollapseIdleWithoutRuns(k, '_', '-');
    CollapseHyphens(ws);
    LowerIdle(k);
    LowerIdle(Join(ws, "_"));
  }

  lemma LowerIdle(s: string)
    requires forall k :: 0 <= k < |s| ==> !IsUpper(s[k])
    ensures LowerAll(s) == s
  {
  }

  lemma {:induction false} JoinedWordsHaveNoCapital(ws: seq<string>, joiner: char)
    requires AllLowerWords(ws) && !IsUpper(joiner) && !IsLower(joiner)
    ensures forall k :: 0 <= k < |Join(ws, [joiner])| ==> !IsUpper(Join(ws, [joiner])[k])
    ensures NoCaseBoundary(Join(ws, [joiner]))
    decreases |ws|
  {
    if |ws| > 1 {
      JoinedWordsHaveNoCapital(ws[1..], joiner);
    }
  }

  lemma {:induction false} HyphenatedHasNoUnderscore(ws: seq<string>)
    requires AllLowerWords(ws)
    ensures forall k :: 0 <= k < |Join(ws, "-")| ==> !InRun(Join(ws, "-")[k], '_')
    decreases |ws|
  {
    if |ws| > 1 {
      HyphenatedHasNoUnderscore(ws[1..]);
    }
  }

  lemma {:induction false} CollapseHyphens(ws: seq<string>)
    requires |ws| > 0 && AllLowerWords(ws)
    ensures CollapseRuns(Join(ws, "-"), '-', '_') == Join(ws, "_")
    decreases |ws|
  {
    if |ws| == 1 {
      CollapseIdleWithoutRuns(ws[0], '-', '_');
    } else {
      CollapseHyphens(ws[1..]);
      CollapseOneHyphen(ws[0], Join(ws[1..], "-"));
    }
  }

  lemma CollapseOneHyphen(w: string, rest: string)
    requires IsLowerWord(w)
    requires |rest| > 0 && IsLower(rest[0])
    ensures CollapseRuns(w + "-" + rest, '-', '_') == w + "_" + CollapseRuns(rest, '-', '_')
  {
    CollapseOneRunChar(w, '-', rest, '-', '_');
  }

  /** One run character between a run-free word and a text that starts outside a run becomes one joiner. */
  lemma CollapseOneRunChar(w: string, x: char, rest: string, other: char, joiner: char)
    requires !InRun(joiner, other) && InRun(x, other)
    requires forall k :: 0 <= k < |w| ==> !InRun(w[k], other)
    requires |rest| > 0 && !InRun(rest[0], other)
    ensures CollapseRuns(w + [x] + rest, other, joiner) == w + [joiner] + CollapseRuns(rest, other, joiner)
  {
    var t := [x] + rest;
    assert w + [x] + rest == w + t;
    CollapseRunsAfterWord(w, t, other, joiner);
    assert t[0] == x && t[1..] == rest;
    assert DropRun(rest, other) == rest;
    var tail := CollapseRuns(rest, other, joiner);
    assert CollapseRuns(t, other, joiner) == [joiner] + tail;
    assert w + ([joiner] + tail) == w + [joiner] + tail;
  }

  lemma BlogPostWords()
    ensures AllLowerWords(["blog", "post"])
    ensures Join(["blog", "post"], "-") == "blog-post"
    ensures Join(["blog", "post"], "_") == "blog_post"
    ensures PascalWords(["blog", "post"]) == "BlogPost"
  {
    var ws := ["blog", "post"];
    assert ws[1..] == ["post"];
    assert PascalWords(ws) == "Blog" + PascalWords(["post"]);
    assert PascalWords(["post"]) == "Post" + PascalWords([]);
  }

  /** The examples in the documentation comments of `toPascalCase` and `toCamelCase`. */
  lemma PascalDocExamples()
    ensures PascalCase("blog-post") == "BlogPost"
    ensures CamelCase("blog-post") == "blogPost"
  {
    BlogPostWords();
    PascalOfHyphenated(["blog", "post"]);
  }

  /** The examples in the documentation comments of `toKebabCase`, `toSnakeCase` and `toUpperSnakeCase`. */
  lemma DelimitedDocExamples()
    ensures KebabCase("BlogPost") == "blog-post"
    ensures SnakeCase("BlogPost") == "blog_post"
    ensures UpperSnakeCase("BlogPost") == "BLOG_POST"
  {
    BlogPostWords();
    DelimitedOfPascalWords(["blog", "post"], '-', '_');
    DelimitedOfPascalWords(["blog", "post"], '_', '-');
    assert UpperAll("blog_post") == "BLOG_POST";
  }

  /** `_` and digits are word characters, so no word starts after an underscore: `blog_post` gives `Blogpost`. */
  lemma UnderscoreDoesNotStartWord()
    ensures PascalCase("blog_post") == "Blogpost"
  {
    UnderscoreCapitalized("blog_post");
    UnderscoreRemoved("Blog_post");
  }

  lemma UnderscoreCapitalized(s: string)
    requires s == "blog_post"
    ensures CapitalizeWords(s) == "Blog_post"
  {
    var c := CapitalizeWords(s);
    assert c[0] == 'B' && c[1] == 'l' && c[2] == 'o' && c[3] == 'g' && c[4] == '_';
    assert c[5] == 'p' && c[6] == 'o' && c[7] == 's' && c[8] == 't';
  }

  lemma UnderscoreRemoved(c: string)
    requires c == "Blog_post"
    ensures RemoveSeparators(c) == "Blogpost"
  {
    var a, b := c[..4], c[5..];
    assert a == "Blog" && b == "post";
    assert c == a + [c[4]] + b;
    RemoveOneSeparator(a, c[4], b);
  }

  /** A separator between two separator-free parts is deleted and nothing else is. */
  lemma RemoveOneSeparator(a: string, x: char, b: string)
    requires forall k :: 0 <= k < |a| ==> !IsWordSeparator(a[k])
    requires forall k :: 0 <= k < |b| ==> !IsWordSeparator(b[k])
    requires IsWordSeparator(x)
    ensures RemoveSeparators(a + [x] + b) == a + b
  {
    assert a + [x] + b == a + ([x] + b);
    RemoveSeparatorsAfterWord(a, [x] + b);
    assert ([x] + b)[1..] == b;
    RemoveSeparatorsAfterWord(b, "");
    assert b + "" == b;
  }

  // ------------------------------------------------------------ pluralize

  /** The naive `pluralize` of `src/create_module.ts`: `y` -> `ies`, `s` -> `ses`, else `+s`. */
  function Pluralize(s: string): (r: string)
    ensures |r| > 0 && r[|r| - 1] == 's'
    ensures |s| > 0 && s[|s| - 1] == 'y' ==> r == s[..|s| - 1] + "ies"
    ensures !(|s| > 0 && s[|s| - 1] == 'y') ==> s <= r && |r| - |s| in {1, 2}
    ensures |s| > 0 && s[|s| - 1] == 's' ==> r == s + "es"
    ensures !(|s| > 0 && s[|s| - 1] in "ys") ==> r == s + "s"
  {
    if |s| > 0 && s[|s| - 1] == 'y' then s[..|s| - 1] + "ies"
    else if |s| > 0 && s[|s| - 1] == 's' then s + "es"
    else s + "s"
  }

  /**
   * The plural keeps the snake form: a name without upper-case letters,
   * white space or hyphens still has none once pluralized, and every
   * character but a final `y` is kept in place.
   */
  lemma PluralizeKeepsSnakeForm(s: string)
    requires forall k :: 0 <= k < |s| ==> !IsUpper(s[k]) && !IsSpace(s[k]) && s[k] != '-'
    ensures var r := Pluralize(s);
            && (forall k :: 0 <= k < |r| ==> !IsUpper(r[k]) && !IsSpace(r[k]) && r[k] != '-')
            && (|s| > 0 ==> r[..|s| - 1] == s[..|s| - 1])
  {
    var r := Pluralize(s);
    var stem := if |s| > 0 && s[|s| - 1] == 'y' then s[..|s| - 1] else s;
    var suffix := r[|stem|..];
    assert r == stem + suffix;
    assert suffix == "ies" || suffix == "es" || suffix == "s";
  }

  /** The three rules on one word each: `category`, `bus`, `blog_post`. */
  lemma PluralizeExamples()
    ensures Pluralize("category") == "categories"
    ensures Pluralize("bus") == "buses"
    ensures Pluralize("blog_post") == "blog_posts"
  {
    assert "category"[..7] == "categor";
  }
}
