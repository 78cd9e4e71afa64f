/**
 * The handful of JavaScript string operations the generator relies on
 * (`includes`, `indexOf`, `lastIndexOf`, `slice`-based splicing, `trim`,
 * `split` and `join`), stated over `seq<char>` with contracts that say what
 * each one finds.
 */
module Text {

  /** `p` occurs in `s` starting at offset `i`. */
  predicate IsAt(s: string, p: string, i: int)
  {
    0 <= i && i + |p| <= |s| && s[i..i + |p|] == p
  }

  /** `s.includes(p)`. */
  predicate Contains(s: string, p: string)
  {
    exists i :: 0 <= i <= |s| && IsAt(s, p, i)
  }

  /** `s.indexOf(p, from)`: the first occurrence of `p` at or after `from`, or -1. */
  function IndexOf(s: string, p: string, from: nat): (r: int)
    requires from <= |s|
    ensures r == -1 || (from <= r && IsAt(s, p, r))
    ensures r >= 0 ==> forall j :: from <= j < r ==> !IsAt(s, p, j)
    ensures r == -1 ==> forall j :: from <= j ==> !IsAt(s, p, j)
    decreases |s| - from
  {
    if from + |p| > |s| then -1
    else if s[from..from + |p|] == p then from
    else IndexOf(s, p, from + 1)
  }

  /** The last occurrence of `p` at an offset no greater than `k`, or -1. */
  function LastAtOrBefore(s: string, p: string, k: int): (r: int)
    requires k + |p| <= |s|
    ensures r == -1 || (r <= k && IsAt(s, p, r))
    ensures forall j :: r < j <= k ==> !IsAt(s, p, j)
    decreases k + 1
  {
    if k < 0 then -1
    else if s[k..k + |p|] == p then k
    else LastAtOrBefore(s, p, k - 1)
  }

  /** `s.lastIndexOf(p)`: the last occurrence of `p` in `s`, or -1. */
  function LastIndexOf(s: string, p: string): (r: int)
    ensures r == -1 || IsAt(s, p, r)
    ensures forall j :: r < j ==> !IsAt(s, p, j)
  {
    if |p| > |s| then -1 else LastAtOrBefore(s, p, |s| - |p|)
  }

  lemma ContainsIffFound(s: string, p: string)
    ensures Contains(s, p) <==> IndexOf(s, p, 0) >= 0
  {
    if IndexOf(s, p, 0) >= 0 {
      assert IsAt(s, p, IndexOf(s, p, 0));
    }
  }

  /** `s.slice(0, q) + ins + s.slice(q)`: the only kind of edit the generator makes. */
  function Splice(s: string, q: nat, ins: string): (r: string)
    requires q <= |s|
    ensures |r| == |s| + |ins|
    ensures IsAt(r, ins, q)
    ensures r[..q] == s[..q] && r[q + |ins|..] == s[q..]
  {
    var r := s[..q] + ins + s[q..];
    assert r[q..q + |ins|] == ins;
    assert r[q + |ins|..] == s[q..];
    r
  }

  /** Deleting the spliced text gives back the original. */
  lemma SpliceRemovable(s: string, q: nat, ins: string)
    requires q <= |s|
    ensures var r := Splice(s, q, ins); r[..q] + r[q + |ins|..] == s
  {
    var r := Splice(s, q, ins);
    assert r[..q] + r[q + |ins|..] == s[..q] + s[q..];
    assert s[..q] + s[q..] == s;
  }

  /** A splice made outside an occurrence of `w` keeps that occurrence intact (shifted when the splice is before it). */
  lemma SpliceKeepsOccurrence(s: string, q: nat, ins: string, w: string, p: int)
    requires q <= |s|
    requires IsAt(s, w, p)
    requires q <= p || p + |w| <= q
    ensures IsAt(Splice(s, q, ins), w, if q <= p then p + |ins| else p)
  {
    var r := Splice(s, q, ins);
    if q <= p {
      assert r[p + |ins|..p + |ins| + |w|] == s[p..p + |w|];
    } else {
      assert r[p..p + |w|] == s[p..p + |w|];
    }
  }

  /** A spliced text starts with whatever its inserted part starts with. */
  lemma SplicedHeadAt(s: string, q: nat, x: string, tail: string)
    requires q <= |s|
    ensures IsAt(Splice(s, q, x + tail), x, q)
  {
    var r := Splice(s, q, x + tail);
    assert r[q..q + |x|] == (x + tail)[..|x|];
  }

  /** Containment is transitive. */
  lemma ContainedTransitively(s: string, p: string, w: string)
    requires Contains(s, p) && Contains(p, w)
    ensures Contains(s, w)
  {
    var i :| 0 <= i <= |s| && IsAt(s, p, i);
    var j :| 0 <= j <= |p| && IsAt(p, w, j);
    forall k | 0 <= k < |w| ensures s[i + j + k] == w[k] {
      assert s[i..i + |p|][j + k] == p[j + k];
      assert p[j..j + |w|][k] == w[k];
    }
    assert s[i + j..i + j + |w|] == w;
    OccurrenceIsContained(s, w, i + j);
  }

  /** A text holding `a + b + c` holds `b`. */
  lemma ContainsMiddle(s: string, a: string, b: string, c: string)
    requires Contains(s, a + b + c)
    ensures Contains(s, b)
  {
    var i :| 0 <= i <= |s| && IsAt(s, a + b + c, i);
    OccurrenceOfMiddle(s, a, b, c, i);
    OccurrenceIsContained(s, b, i + |a|);
  }

  /** An occurrence in `y` is still one, shifted, once `x` is put in front. */
  lemma OccurrenceAfterPrefix(x: string, y: string, p: string, i: int)
    requires IsAt(y, p, i)
    ensures IsAt(x + y, p, |x| + i)
  {
    assert (x + y)[|x| + i..|x| + i + |p|] == y[i..i + |p|];
  }

  /** An occurrence in `x` is still there once `y` is appended. */
  lemma ContainedInPrefix(x: string, y: string, p: string)
    requires Contains(x, p)
    ensures Contains(x + y, p)
  {
    var i :| 0 <= i <= |x| && IsAt(x, p, i);
    assert (x + y)[i..i + |p|] == x[i..i + |p|];
    assert IsAt(x + y, p, i);
  }

  /** An occurrence of `a + b + c` holds an occurrence of `b`. */
  lemma OccurrenceOfMiddle(s: string, a: string, b: string, c: string, i: int)
    requires IsAt(s, a + b + c, i)
    ensures IsAt(s, b, i + |a|)
  {
    var w := a + b + c;
    assert s[i..i + |w|] == w;
    forall k | 0 <= k < |b| ensures s[i + |a| + k] == b[k] {
      assert s[i + |a| + k] == w[|a| + k];
    }
  }

  /** A text starts with its own head. */
  lemma StartsWithHead(a: string, b: string)
    ensures IsAt(a + b, a, 0)
  {
    assert (a + b)[..|a|] == a;
  }

  lemma ContainsItself(x: string)
    ensures Contains(x, x)
  {
    assert IsAt(x, x, 0);
  }

  lemma OccurrenceIsContained(s: string, p: string, i: int)
    requires IsAt(s, p, i)
    ensures Contains(s, p)
  {
  }

  /** ECMAScript white space and line terminators: the `\s` class and what `trim` removes. */
  predicate IsSpace(c: char)
  {
    if c < '\U{A0}' then c == ' ' || '\t' <= c <= '\r'
    else
      || c == '\U{A0}' || c == '\U{1680}' || '\U{2000}' <= c <= '\U{200A}'
      || c == '\U{2028}' || c == '\U{2029}' || c == '\U{202F}' || c == '\U{205F}'
      || c == '\U{3000}' || c == '\U{FEFF}'
  }

  /** No white space anywhere in `s`. */
  predicate Unspaced(s: string)
  {
    forall k :: 0 <= k < |s| ==> !IsSpace(s[k])
  }

  lemma UnspacedAppend(a: string, b: string)
    requires Unspaced(a) && Unspaced(b)
    ensures Unspaced(a + b)
  {
    forall k | 0 <= k < |a + b| ensures !IsSpace((a + b)[k]) {
      if k >= |a| {
        assert (a + b)[k] == b[k - |a|];
      }
    }
  }

  /** Leading white space removed. */
  function TrimStart(s: string): (r: string)
    ensures |r| <= |s| && r == s[|s| - |r|..]
    ensures forall k :: 0 <= k < |s| - |r| ==> IsSpace(s[k])
    ensures |r| > 0 ==> !IsSpace(r[0])
  {
    if |s| > 0 && IsSpace(s[0]) then TrimStart(s[1..]) else s
  }

  /** Trailing white space removed. */
  function TrimEnd(s: string): (r: string)
    ensures |r| <= |s| && r == s[..|r|]
    ensures forall k :: |r| <= k < |s| ==> IsSpace(s[k])
    ensures |r| > 0 ==> !IsSpace(r[|r| - 1])
  {
    if |s| > 0 && IsSpace(s[|s| - 1]) then TrimEnd(s[..|s| - 1]) else s
  }

  /** `s.trim()`. */
  function Trim(s: string): string
  {
    TrimEnd(TrimStart(s))
  }

  /** `i` holds the last character of `s` that is not white space. */
  predicate LastVisibleAt(s: string, i: int)
  {
    0 <= i < |s| && !IsSpace(s[i]) && forall j :: i < j < |s| ==> IsSpace(s[j])
  }

  /** The trimmed text is empty exactly when `s` is all white space. */
  lemma TrimEmptyIffBlank(s: string)
    ensures |Trim(s)| == 0 <==> forall k :: 0 <= k < |s| ==> IsSpace(s[k])
  {
    var a := TrimStart(s);
    if |TrimEnd(a)| == 0 {
      assert |a| == 0;
    } else {
      var i := |s| - |a|;
      assert s[i] == a[0];
    }
  }

  /** A non-empty trimmed text ends with the last visible character of `s`. */
  lemma TrimEndsWithLastVisible(s: string)
    requires |Trim(s)| > 0
    ensures exists i :: LastVisibleAt(s, i) && Trim(s)[|Trim(s)| - 1] == s[i]
  {
    var a := TrimStart(s);
    var t := TrimEnd(a);
    var off := |s| - |a|;
    var i := off + |t| - 1;
    assert s[i] == a[|t| - 1] == t[|t| - 1];
    forall j | i < j < |s| ensures IsSpace(s[j]) {
      assert s[j] == a[j - off];
    }
    assert LastVisibleAt(s, i);
  }

  /** Trimming indented text whose ends are visible leaves just the text. */
  lemma TrimIndented(ws: string, x: string)
    requires forall k :: 0 <= k < |ws| ==> IsSpace(ws[k])
    requires |x| > 0 && !IsSpace(x[0]) && !IsSpace(x[|x| - 1])
    ensures Trim(ws + x) == x
  {
    var s := ws + x;
    assert s[|ws|] == x[0] && s[|ws|..] == x;
    assert forall k :: 0 <= k < |ws| ==> s[k] == ws[k];
    assert TrimStart(s) == x;
  }

  /** Trimming white space leaves nothing. */
  lemma TrimBlank(s: string)
    requires forall k :: 0 <= k < |s| ==> IsSpace(s[k])
    ensures Trim(s) == ""
  {
    TrimEmptyIffBlank(s);
  }

  /** `xs.join(sep)`. */
  function Join(xs: seq<string>, sep: string): string
  {
    if |xs| == 0 then ""
    else if |xs| == 1 then xs[0]
    else xs[0] + sep + Join(xs[1..], sep)
  }

  /** `s.split(sep)` for a non-empty separator: the pieces between successive occurrences. */
  function Split(s: string, sep: string): (r: seq<string>)
    requires |sep| > 0
    ensures |r| >= 1
    decreases |s|
  {
    var i := IndexOf(s, sep, 0);
    if i < 0 then [s] else [s[..i]] + Split(s[i + |sep|..], sep)
  }

  /** No piece produced by `Split` contains the separator. */
  lemma {:induction false} SplitPiecesFree(s: string, sep: string)
    requires |sep| > 0
    ensures forall k :: 0 <= k < |Split(s, sep)| ==> !Contains(Split(s, sep)[k], sep)
    decreases |s|
  {
    var i := IndexOf(s, sep, 0);
    if i < 0 {
      forall j | 0 <= j <= |s| ensures !IsAt(s, sep, j) { }
    } else {
      SplitPiecesFree(s[i + |sep|..], sep);
      forall j | 0 <= j <= i && IsAt(s[..i], sep, j) ensures false {
        assert s[..i][j..j + |sep|] == s[j..j + |sep|];
        assert IsAt(s, sep, j);
      }
      var r := Split(s, sep);
      assert r == [s[..i]] + Split(s[i + |sep|..], sep);
      forall k | 0 <= k < |r| ensures !Contains(r[k], sep) {
        if k > 0 {
          assert r[k] == Split(s[i + |sep|..], sep)[k - 1];
        }
      }
    }
  }

  lemma JoinCons(x: string, tail: seq<string>, sep: string)
    requires |tail| > 0
    ensures Join([x] + tail, sep) == x + sep + Join(tail, sep)
  {
    assert ([x] + tail)[1..] == tail;
  }

  /** Joining the pieces of a split gives back the text. */
  lemma {:induction false} JoinSplit(s: string, sep: string)
    requires |sep| > 0
    ensures Join(Split(s, sep), sep) == s
    decreases |s|
  {
    var i := IndexOf(s, sep, 0);
    if i >= 0 {
      JoinSplit(s[i + |sep|..], sep);
      JoinSplitStep(s, sep, i);
    }
  }

  lemma JoinSplitStep(s: string, sep: string, i: int)
    requires |sep| > 0 && i == IndexOf(s, sep, 0) && i >= 0
    requires Join(Split(s[i + |sep|..], sep), sep) == s[i + |sep|..]
    ensures Join(Split(s, sep), sep) == s
  {
    var rest := s[i + |sep|..];
    SplitAtFirst(s, sep, i);
    JoinCons(s[..i], Split(rest, sep), sep);
    AroundOccurrence(s, sep, i);
  }

  lemma SplitAtFirst(s: string, sep: string, i: int)
    requires |sep| > 0 && i == IndexOf(s, sep, 0) && i >= 0
    ensures Split(s, sep) == [s[..i]] + Split(s[i + |sep|..], sep)
  {
  }

  /** A text is what precedes an occurrence, the occurrence, and what follows it. */
  lemma AroundOccurrence(s: string, p: string, i: int)
    requires IsAt(s, p, i)
    ensures s == s[..i] + p + s[i + |p|..]
  {
    assert s[..i] + s[i..i + |p|] == s[..i + |p|];
    assert s[..i + |p|] + s[i + |p|..] == s;
  }

  /**
   * The separator cannot be found inside a piece nor straddle a piece's end:
   * its last character appears neither in the piece nor earlier in the separator.
   */
  predicate SeparableBy(x: string, sep: string)
    requires |sep| > 0
  {
    sep[|sep| - 1] !in x && sep[|sep| - 1] !in sep[..|sep| - 1]
  }

  lemma FirstSeparatorAfterPiece(x: string, sep: string, rest: string)
    requires |sep| > 0 && SeparableBy(x, sep)
    ensures IndexOf(x + sep + rest, sep, 0) == |x|
  {
    var s := x + sep + rest;
    assert s[|x|..|x| + |sep|] == sep;
    assert IsAt(s, sep, |x|);
    var r := IndexOf(s, sep, 0);
  }

  lemma NoSeparatorInPiece(x: string, sep: string)
    requires |sep| > 0 && SeparableBy(x, sep)
    ensures IndexOf(x, sep, 0) == -1
  {
  }

  /** Splitting a join recovers the pieces when no piece can be confused with the separator. */
  lemma {:induction false} SplitJoin(xs: seq<string>, sep: string)
    requires |sep| > 0 && |xs| > 0
    requires forall k :: 0 <= k < |xs| ==> SeparableBy(xs[k], sep)
    ensures Split(Join(xs, sep), sep) == xs
    decreases |xs|
  {
    if |xs| == 1 {
      NoSeparatorInPiece(xs[0], sep);
    } else {
      SplitAfterPiece(xs[0], sep, Join(xs[1..], sep));
      SplitJoin(xs[1..], sep);
      assert xs == [xs[0]] + xs[1..];
    }
  }

  /** Splitting a separable piece followed by the separator peels that piece off. */
  lemma SplitAfterPiece(x: string, sep: string, rest: string)
    requires |sep| > 0 && SeparableBy(x, sep)
    ensures Split(x + sep + rest, sep) == [x] + Split(rest, sep)
  {
    var s := x + sep + rest;
    FirstSeparatorAfterPiece(x, sep, rest);
    assert s[..|x|] == x;
    assert s[|x| + |sep|..] == rest;
  }

  /** Joining two non-empty runs of pieces puts one separator between them. */
  lemma {:induction false} JoinAppend(a: seq<string>, b: seq<string>, sep: string)
    requires |a| > 0 && |b| > 0
    ensures Join(a + b, sep) == Join(a, sep) + sep + Join(b, sep)
    decreases |a|
  {
    if |a| == 1 {
      assert (a + b)[1..] == b;
    } else {
      assert (a + b)[1..] == a[1..] + b;
      JoinAppend(a[1..], b, sep);
    }
  }
}
