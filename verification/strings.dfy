/**
 * Text as sequences of characters, and a model of Python's `str.split(sep)`
 * for a non-empty separator: the text is cut at the leftmost occurrence of
 * `sep`, then again in what follows it, and so on, never overlapping.
 */
module Strings {
  import opened Wrappers

  const CRLF: string := "\r\n"

  /** `pat` occurs in `s` starting at index `i`. */
  ghost predicate OccursAt(s: string, pat: string, i: nat) {
    i + |pat| <= |s| && s[i..i + |pat|] == pat
  }

  ghost predicate Contains(s: string, pat: string) {
    exists i: nat :: OccursAt(s, pat, i)
  }

  /** `i` is the leftmost occurrence of `pat` in `s`. */
  ghost predicate FirstAt(s: string, pat: string, i: nat) {
    OccursAt(s, pat, i) && forall j: nat :: j < i ==> !OccursAt(s, pat, j)
  }

  /**
   * `p` is what `s.split(sep)[0]` gives: a prefix of `s` that is either all of
   * `s` (no separator anywhere) or is followed by the leftmost separator.
   */
  ghost predicate IsFirstPiece(p: string, s: string, sep: string) {
    p <= s && (if p == s then !Contains(s, sep) else FirstAt(s, sep, |p|))
  }

  /** The leftmost occurrence of `pat` at or after index `k`. */
  function FindFrom(s: string, pat: string, k: nat): (r: Option<nat>)
    ensures r.Some? ==> k <= r.value && r.value + |pat| <= |s|
    decreases |s| - k
  {
    if k + |pat| > |s| then None
    else if s[k..k + |pat|] == pat then Some(k)
    else FindFrom(s, pat, k + 1)
  }

  /** The leftmost occurrence of `pat` in `s`, as `str.find` gives it (`None` for -1). */
  function Find(s: string, pat: string): (r: Option<nat>)
    ensures r.Some? ==> r.value + |pat| <= |s|
  {
    FindFrom(s, pat, 0)
  }

  /** `FindFrom` finds an occurrence, and none between `k` and it; or there is none from `k` on. */
  lemma {:induction false} FindFromSpec(s: string, pat: string, k: nat)
    ensures FindFrom(s, pat, k).Some? ==> OccursAt(s, pat, FindFrom(s, pat, k).value)
    ensures FindFrom(s, pat, k).Some? ==>
      forall j: nat :: k <= j < FindFrom(s, pat, k).value ==> !OccursAt(s, pat, j)
    ensures FindFrom(s, pat, k).None? ==> forall j: nat :: k <= j ==> !OccursAt(s, pat, j)
    decreases |s| - k
  {
    if k + |pat| <= |s| && s[k..k + |pat|] != pat {
      FindFromSpec(s, pat, k + 1);
    }
  }

  /** `Find` gives the leftmost occurrence, and fails exactly when there is none. */
  lemma FindSpec(s: string, pat: string)
    ensures Find(s, pat).Some? ==> FirstAt(s, pat, Find(s, pat).value)
    ensures Find(s, pat).None? <==> !Contains(s, pat)
  {
    FindFromSpec(s, pat, 0);
    if Find(s, pat).Some? {
      assert OccursAt(s, pat, Find(s, pat).value);
    }
  }

  /** `s.split(sep)`. Python raises on an empty separator; the client only splits on constants. */
  function Split(s: string, sep: string): (r: seq<string>)
    requires |sep| > 0
    ensures |r| >= 1
    decreases |s|
  {
    match Find(s, sep)
    case None => [s]
    case Some(i) => [s[..i]] + Split(s[i + |sep|..], sep)
  }

  /** `sep.join(parts)`, the inverse of `Split`. */
  function Join(parts: seq<string>, sep: string): (r: string)
    requires |parts| >= 1
    decreases |parts|
  {
    if |parts| == 1 then parts[0] else parts[0] + sep + Join(parts[1..], sep)
  }

  lemma FirstAtUnique(s: string, pat: string, i: nat, j: nat)
    requires FirstAt(s, pat, i) && FirstAt(s, pat, j)
    ensures i == j
  {
  }

  lemma JoinCons(a: string, rest: seq<string>, sep: string)
    requires |rest| >= 1
    ensures Join([a] + rest, sep) == a + sep + Join(rest, sep)
  {
    assert ([a] + rest)[1..] == rest;
  }

  /** One step of `Split` when the separator is found. */
  lemma SplitFound(s: string, sep: string)
    requires |sep| > 0 && Find(s, sep).Some?
    ensures Split(s, sep)
      == [s[..Find(s, sep).value]] + Split(s[Find(s, sep).value + |sep|..], sep)
  {
  }

  /** Text is the part before an occurrence, the occurrence, and the rest. */
  lemma CutAt(s: string, sep: string, i: nat)
    requires OccursAt(s, sep, i)
    ensures s == s[..i] + sep + s[i + |sep|..]
  {
    assert s == s[..i] + s[i..i + |sep|] + s[i + |sep|..];
  }

  /** Splitting and joining again gives back the text. */
  lemma {:induction false} SplitJoin(s: string, sep: string)
    requires |sep| > 0
    ensures Join(Split(s, sep), sep) == s
    decreases |s|
  {
    FindSpec(s, sep);
    if Find(s, sep).Some? {
      var i := Find(s, sep).value;
      var rest := s[i + |sep|..];
      var tail := Split(rest, sep);
      SplitFound(s, sep);
      SplitJoin(rest, sep);
      JoinCons(s[..i], tail, sep);
      CutAt(s, sep, i);
    } else {
      assert Split(s, sep) == [s];
    }
  }

  /** No piece of a split contains the separator. */
  lemma {:induction false} SplitPiecesFree(s: string, sep: string)
    requires |sep| > 0
    ensures forall k :: 0 <= k < |Split(s, sep)| ==> !Contains(Split(s, sep)[k], sep)
    decreases |s|
  {
    FindSpec(s, sep);
    var f := Find(s, sep);
    if f.Some? {
      var i := f.value;
      var rest := s[i + |sep|..];
      SplitPiecesFree(rest, sep);
      var parts := Split(s, sep);
      SplitFound(s, sep);
      forall j: nat
        ensures !OccursAt(s[..i], sep, j)
      {
        if j + |sep| <= i {
          assert s[..i][j..j + |sep|] == s[j..j + |sep|];
          assert !OccursAt(s, sep, j);
        }
      }
      forall k | 0 <= k < |parts|
        ensures !Contains(parts[k], sep)
      {
        if k > 0 {
          assert parts[k] == Split(rest, sep)[k - 1];
        }
      }
    }
  }

  /** A split has exactly one piece precisely when the separator does not occur. */
  lemma SplitOnePiece(s: string, sep: string)
    requires |sep| > 0
    ensures |Split(s, sep)| == 1 <==> !Contains(s, sep)
  {
    FindSpec(s, sep);
  }

  /** The first piece of a split is the text up to the leftmost separator, or all of it. */
  lemma SplitHead(s: string, sep: string)
    requires |sep| > 0
    ensures IsFirstPiece(Split(s, sep)[0], s, sep)
  {
    FindSpec(s, sep);
    match Find(s, sep)
    case None =>
    case Some(i) =>
      assert Split(s, sep)[0] == s[..i];
      assert s[..i] != s;
  }

  /** `IsFirstPiece` pins down a single piece. */
  lemma FirstPieceUnique(p: string, q: string, s: string, sep: string)
    requires IsFirstPiece(p, s, sep) && IsFirstPiece(q, s, sep)
    ensures p == q
  {
    if p != s && q != s {
      FirstAtUnique(s, sep, |p|, |q|);
    }
  }

  /** The search from `k` finds the leftmost occurrence when it lies at or after `k`. */
  lemma {:induction false} FindFromFirst(s: string, pat: string, k: nat, i: nat)
    requires k <= i && FirstAt(s, pat, i)
    ensures FindFrom(s, pat, k) == Some(i)
    decreases i - k
  {
    if k < i {
      assert !OccursAt(s, pat, k);
      FindFromFirst(s, pat, k + 1, i);
    }
  }

  /** When the separator occurs, the search finds it. */
  lemma FindSome(s: string, pat: string)
    requires Contains(s, pat)
    ensures Find(s, pat).Some?
  {
    FindSpec(s, pat);
  }

  /** The second piece of a split is the first piece of what follows the leftmost separator. */
  lemma SplitSecond(s: string, sep: string)
    requires |sep| > 0 && Contains(s, sep)
    ensures |Split(s, sep)| >= 2
    ensures |Split(s, sep)[0]| + |sep| <= |s|
    ensures IsFirstPiece(Split(s, sep)[1], s[|Split(s, sep)[0]| + |sep|..], sep)
  {
    FindSome(s, sep);
    var i := Find(s, sep).value;
    var rest := s[i + |sep|..];
    SplitFound(s, sep);
    var parts := Split(s, sep);
    assert parts[0] == s[..i];
    assert parts[1] == Split(rest, sep)[0];
    SplitHead(rest, sep);
  }

  /** A one-character pattern occurs exactly when the character does. */
  lemma CharContains(s: string, c: char)
    ensures Contains(s, [c]) <==> c in s
  {
    if c in s {
      var i :| 0 <= i < |s| && s[i] == c;
      assert s[i..i + 1] == [c];
      assert OccursAt(s, [c], i);
    } else {
      HeadFree(s, [c]);
    }
  }

  /** Cutting at the leftmost separator. */
  lemma SplitAtFirst(s: string, sep: string, i: nat)
    requires |sep| > 0 && FirstAt(s, sep, i)
    ensures Split(s, sep) == [s[..i]] + Split(s[i + |sep|..], sep)
  {
    FindFromFirst(s, sep, 0, i);
    SplitFound(s, sep);
  }

  /** If the first separator in `a + sep + b` starts right after `a`, `a` is the first piece. */
  lemma SplitConcat(a: string, sep: string, b: string)
    requires |sep| > 0 && FirstAt(a + sep + b, sep, |a|)
    ensures Split(a + sep + b, sep) == [a] + Split(b, sep)
  {
    var s := a + sep + b;
    SplitAtFirst(s, sep, |a|);
    assert s[..|a|] == a;
    assert s[|a| + |sep|..] == b;
  }

  /** Text without the separator is a single piece. */
  lemma SplitNone(s: string, sep: string)
    requires |sep| > 0 && !Contains(s, sep)
    ensures Split(s, sep) == [s]
  {
    FindSpec(s, sep);
  }

  /** Text in which the separator's first character never appears cannot contain it. */
  lemma HeadFree(s: string, sep: string)
    requires |sep| > 0 && sep[0] !in s
    ensures !Contains(s, sep)
  {
    forall i: nat
      ensures !OccursAt(s, sep, i)
    {
      if i + |sep| <= |s| {
        assert s[i..i + |sep|][0] == s[i];
      }
    }
  }

  /** Text with no `c` followed by `c` has its first `c` right after the text. */
  lemma CharFirstAfter(a: string, c: char, b: string)
    requires c !in a
    ensures FirstAt(a + [c] + b, [c], |a|)
  {
    var s := a + [c] + b;
    assert s[|a|..|a| + 1] == [c];
    forall j: nat | j < |a|
      ensures !OccursAt(s, [c], j)
    {
      assert s[j..j + 1][0] == s[j] == a[j];
    }
  }

  /** Splitting on one character at its first occurrence. */
  lemma SplitCharConcat(a: string, c: char, b: string)
    requires c !in a
    ensures Split(a + [c] + b, [c]) == [a] + Split(b, [c])
  {
    CharFirstAfter(a, c, b);
    SplitConcat(a, [c], b);
  }

  /** Text without `c` is one piece when split on `c`. */
  lemma SplitCharNone(s: string, c: char)
    requires c !in s
    ensures Split(s, [c]) == [s]
  {
    HeadFree(s, [c]);
    SplitNone(s, [c]);
  }

  /** Positions inside a suffix: an occurrence in `y` is an occurrence in `x + y`, shifted. */
  lemma OccursShift(x: string, y: string, pat: string, k: nat)
    ensures OccursAt(x + y, pat, |x| + k) <==> OccursAt(y, pat, k)
  {
    if k + |pat| <= |y| {
      assert (x + y)[|x| + k..|x| + k + |pat|] == y[k..k + |pat|];
    }
  }

  /**
   * A line without CRLF, followed by text that starts with CR, has no CRLF
   * starting inside the line.
   */
  lemma LineThenCR(l: string, t: string)
    requires !Contains(l, CRLF) && |t| > 0 && t[0] == '\r'
    ensures forall j: nat :: j < |l| ==> !OccursAt(l + t, CRLF, j)
  {
    var s := l + t;
    forall j: nat | j < |l|
      ensures !OccursAt(s, CRLF, j)
    {
      if j + 2 <= |l| {
        assert l[j..j + 2] == s[j..j + 2];
        assert !OccursAt(l, CRLF, j);
      } else {
        assert s[j + 1] == t[0];
        assert s[j..j + 2][1] == s[j + 1];
      }
    }
  }

  /** The first CRLF of `l + CRLF + b` is the one right after `l`, when `l` has none. */
  lemma CRLFFirstAfter(l: string, b: string)
    requires !Contains(l, CRLF)
    ensures FirstAt(l + CRLF + b, CRLF, |l|)
  {
    var s := l + CRLF + b;
    LineThenCR(l, CRLF + b);
    assert s == l + (CRLF + b);
    assert s[|l|..|l| + 2] == CRLF;
  }

  /** Splitting on CRLF after a line that has none. */
  lemma SplitLine(l: string, b: string)
    requires !Contains(l, CRLF)
    ensures Split(l + CRLF + b, CRLF) == [l] + Split(b, CRLF)
  {
    CRLFFirstAfter(l, b);
    SplitConcat(l, CRLF, b);
  }

  /** Two texts without CRLF, not joined by a CR/LF pair, give a text without CRLF. */
  lemma NoCRLFConcat(x: string, y: string)
    requires !Contains(x, CRLF) && !Contains(y, CRLF)
    requires x == [] || y == [] || x[|x| - 1] != '\r' || y[0] != '\n'
    ensures !Contains(x + y, CRLF)
  {
    var s := x + y;
    forall j: nat
      ensures !OccursAt(s, CRLF, j)
    {
      if j + 2 <= |x| {
        assert x[j..j + 2] == s[j..j + 2];
        assert !OccursAt(x, CRLF, j);
      } else if j >= |x| {
        OccursShift(x, y, CRLF, j - |x|);
      } else if j + 2 <= |s| {
        assert j == |x| - 1;
        assert s[j] == x[|x| - 1] && s[j + 1] == y[0];
        assert s[j..j + 2] == [s[j], s[j + 1]];
      }
    }
  }
}
