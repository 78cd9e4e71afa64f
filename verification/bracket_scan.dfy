/**
 * The bracket-depth scan every registration site runs to find the `]` that
 * closes an `imports: [` array. It counts every `[` and `]` it sees,
 * including those inside string literals and comments.
 */
module BracketScan {
  import opened Text

  /** How one character moves the depth. */
  function Delta(c: char): int
  {
    if c == '[' then 1 else if c == ']' then -1 else 0
  }

  /** Opening brackets minus closing brackets in `t`. */
  function Balance(t: string): int
  {
    if |t| == 0 then 0 else Balance(t[..|t| - 1]) + Delta(t[|t| - 1])
  }

  /** The depth once `s[start..k]` has been scanned, starting from depth 1 just after the opening bracket. */
  function Depth(s: string, start: nat, k: nat): int
    requires start <= k <= |s|
  {
    1 + Balance(s[start..k])
  }

  lemma DepthStep(s: string, start: nat, i: nat)
    requires start <= i < |s|
    ensures Depth(s, start, i + 1) == Depth(s, start, i) + Delta(s[i])
  {
    assert s[start..i + 1][..i - start] == s[start..i];
  }

  /** The scan loop from position `i` with the current depth in hand. */
  function ScanFrom(s: string, start: nat, i: nat, depth: int): (r: int)
    requires start <= i <= |s|
    requires depth == Depth(s, start, i)
    requires forall k :: start <= k <= i ==> Depth(s, start, k) >= 1
    ensures r == -1 || i <= r < |s|
    ensures r >= 0 ==> s[r] == ']' && Depth(s, start, r + 1) == 0
    ensures r >= 0 ==> forall k :: start <= k <= r ==> Depth(s, start, k) >= 1
    ensures r == -1 ==> forall k :: start <= k <= |s| ==> Depth(s, start, k) >= 1
    decreases |s| - i
  {
    if i == |s| then -1
    else
      DepthStep(s, start, i);
      var d := depth + Delta(s[i]);
      if d == 0 then i else ScanFrom(s, start, i + 1, d)
  }

  /**
   * The index of the `]` that brings the depth from 1 back to 0 when
   * scanning from `start` (the position just after an opening `[`), or -1
   * when the depth never returns to 0.
   */
  function ClosingBracket(s: string, start: nat): (r: int)
    requires start <= |s|
    ensures r == -1 || start <= r < |s|
    ensures r >= 0 ==> s[r] == ']' && Depth(s, start, r + 1) == 0
    ensures r >= 0 ==> forall k :: start <= k <= r ==> Depth(s, start, k) >= 1
    ensures r == -1 ==> forall k :: start <= k <= |s| ==> Depth(s, start, k) >= 1
  {
    assert s[start..start] == [];
    ScanFrom(s, start, start, 1)
  }

  /** The closing bracket is the only position with the properties `ClosingBracket` promises. */
  lemma ClosingBracketUnique(s: string, start: nat, r: int)
    requires start <= r < |s|
    requires Depth(s, start, r + 1) == 0
    requires forall k :: start <= k <= r ==> Depth(s, start, k) >= 1
    ensures ClosingBracket(s, start) == r
  {
  }

  lemma {:induction false} BalanceAppend(a: string, b: string)
    ensures Balance(a + b) == Balance(a) + Balance(b)
    decreases |b|
  {
    if |b| == 0 {
      assert a + b == a;
    } else {
      var b' := b[..|b| - 1];
      assert (a + b)[..|a + b| - 1] == a + b';
      BalanceAppend(a, b');
    }
  }

  /** Text without brackets: inserting it never moves the depth. */
  predicate BracketFree(t: string)
  {
    '[' !in t && ']' !in t
  }

  /** A module name built from a bracket-free name is bracket-free. */
  lemma ModuleNameBracketFree(x: string)
    requires BracketFree(x)
    ensures BracketFree(x + "Module")
  {
  }

  lemma {:induction false} BracketFreeBalance(t: string)
    requires BracketFree(t)
    ensures Balance(t) == 0
    decreases |t|
  {
    if |t| > 0 {
      BracketFreeBalance(t[..|t| - 1]);
    }
  }

  /** The depth in a text with bracket-free text spliced in at `q`, in terms of the depth in the original. */
  lemma DepthAfterSplice(s: string, start: nat, q: nat, ins: string, k: nat)
    requires start <= q <= |s| && BracketFree(ins)
    requires start <= k <= |s| + |ins|
    ensures k <= q ==> Depth(Splice(s, q, ins), start, k) == Depth(s, start, k)
    ensures q <= k <= q + |ins| ==> Depth(Splice(s, q, ins), start, k) == Depth(s, start, q)
    ensures q + |ins| <= k ==> Depth(Splice(s, q, ins), start, k) == Depth(s, start, k - |ins|)
  {
    if k <= q {
      DepthBeforeSplice(s, start, q, ins, k);
    }
    if q <= k <= q + |ins| {
      DepthWithinSplice(s, start, q, ins, k);
    }
    if q + |ins| <= k {
      DepthPastSplice(s, start, q, ins, k);
    }
  }

  lemma DepthBeforeSplice(s: string, start: nat, q: nat, ins: string, k: nat)
    requires start <= k <= q <= |s|
    ensures Depth(Splice(s, q, ins), start, k) == Depth(s, start, k)
  {
    assert Splice(s, q, ins)[start..k] == s[start..k];
  }

  lemma DepthWithinSplice(s: string, start: nat, q: nat, ins: string, k: nat)
    requires start <= q <= |s| && BracketFree(ins)
    requires q <= k <= q + |ins|
    ensures Depth(Splice(s, q, ins), start, k) == Depth(s, start, q)
  {
    var t := Splice(s, q, ins);
    var part := ins[..k - q];
    assert t[start..k] == s[start..q] + part;
    assert BracketFree(part) by {
      assert forall c :: c in part ==> c in ins;
    }
    BracketFreeBalance(part);
    BalanceAppend(s[start..q], part);
  }

  lemma DepthPastSplice(s: string, start: nat, q: nat, ins: string, k: nat)
    requires start <= q <= |s| && BracketFree(ins)
    requires q + |ins| <= k <= |s| + |ins|
    ensures Depth(Splice(s, q, ins), start, k) == Depth(s, start, k - |ins|)
  {
    var t := Splice(s, q, ins);
    var a := s[start..q];
    var b := s[q..k - |ins|];
    assert t[start..k] == a + ins + b;
    assert s[start..k - |ins|] == a + b;
    BracketFreeBalance(ins);
    BalanceAppend(a + ins, b);
    BalanceAppend(a, ins);
    BalanceAppend(a, b);
  }

  /**
   * Splicing bracket-free text into an array, anywhere between its opening
   * and its closing bracket, keeps that closing bracket matched: the scan
   * now finds it shifted by the length of the inserted text, so the
   * inserted text lies inside the array.
   */
  lemma InsertionKeepsArrayClosed(s: string, start: nat, q: nat, ins: string)
    requires start <= |s|
    requires ClosingBracket(s, start) >= 0
    requires start <= q <= ClosingBracket(s, start)
    requires BracketFree(ins)
    ensures ClosingBracket(Splice(s, q, ins), start) == ClosingBracket(s, start) + |ins|
  {
    var r := ClosingBracket(s, start);
    var t := Splice(s, q, ins);
    forall k | start <= k <= r + |ins| ensures Depth(t, start, k) >= 1 {
      DepthAfterSplice(s, start, q, ins, k);
    }
    DepthAfterSplice(s, start, q, ins, r + |ins| + 1);
    ClosingBracketUnique(t, start, r + |ins|);
  }

  /** Across a bracket-free stretch `s[i..j]` the depth stays what it was at `i`. */
  lemma DepthAcrossFreeRun(s: string, start: nat, i: nat, j: nat)
    requires start <= i <= j <= |s|
    requires BracketFree(s[i..j])
    ensures forall k :: i <= k <= j ==> Depth(s, start, k) == Depth(s, start, i)
  {
    forall k | i <= k <= j ensures Depth(s, start, k) == Depth(s, start, i) {
      assert s[start..k] == s[start..i] + s[i..k];
      assert BracketFree(s[i..k]) by {
        assert forall c :: c in s[i..k] ==> c in s[i..j];
      }
      BracketFreeBalance(s[i..k]);
      BalanceAppend(s[start..i], s[i..k]);
    }
  }

  /**
   * An array without nested brackets closes at its first `]`: when
   * `s[start..e]` holds no bracket and `s[e]` is `]`, the scan from `start`
   * stops at `e`.
   */
  lemma FlatArrayClosed(s: string, start: nat, e: nat)
    requires start <= e < |s| && s[e] == ']'
    requires BracketFree(s[start..e])
    ensures ClosingBracket(s, start) == e
  {
    assert s[start..start] == [];
    DepthAcrossFreeRun(s, start, start, e);
    DepthStep(s, start, e);
    ClosingBracketUnique(s, start, e);
  }

  /** Pieces and separator free of brackets give a joined text free of brackets. */
  lemma {:induction false} JoinBracketFree(xs: seq<string>, sep: string)
    requires BracketFree(sep)
    requires forall k :: 0 <= k < |xs| ==> BracketFree(xs[k])
    ensures BracketFree(Join(xs, sep))
    decreases |xs|
  {
    if |xs| > 1 {
      JoinBracketFree(xs[1..], sep);
    }
  }

  /**
   * A nested array is skipped as a whole: in `[a[b]c]`, with `a`, `b`, `c`
   * free of brackets, the scan from just after the outer `[` stops at the
   * outer `]`, not at the inner one.
   */
  lemma NestedArraySkipped(p: string, a: string, b: string, c: string, rest: string)
    requires BracketFree(a) && BracketFree(b) && BracketFree(c)
    ensures var s := p + "[" + a + "[" + b + "]" + c + "]" + rest;
            ClosingBracket(s, |p| + 1) == |p| + |a| + |b| + |c| + 3
  {
    var s := p + "[" + a + "[" + b + "]" + c + "]" + rest;
    var x := |p| + 1;
    var i1 := x + |a|;
    var i2 := i1 + 1 + |b|;
    var e := i2 + 1 + |c|;
    assert s[x..i1] == a && s[i1] == '[';
    assert s[i1 + 1..i2] == b && s[i2] == ']';
    assert s[i2 + 1..e] == c && s[e] == ']';
    assert s[x..x] == [];
    DepthAcrossFreeRun(s, x, x, i1);
    DepthStep(s, x, i1);
    DepthAcrossFreeRun(s, x, i1 + 1, i2);
    DepthStep(s, x, i2);
    DepthAcrossFreeRun(s, x, i2 + 1, e);
    DepthStep(s, x, e);
    ClosingBracketUnique(s, x, e);
  }
}
