/**
  * The few operations of Go's `strings` package that the body filter and the
  * git tools rely on, over `string` (= `seq<char>`): TrimSpace, Split, Join,
  * Contains (`c in s`) and HasPrefix, plus the subsequence relation used to say
  * that a transformation only deletes characters.
  */
module Strings {

  /** White space as TrimSpace sees it, restricted to ASCII (space, \t, \n, \v, \f, \r). */
  predicate IsSpace(c: char) {
    c == ' ' || c == '\t' || c == '\n' || c == '\U{B}' || c == '\U{C}' || c == '\r'
  }

  predicate AllSpace(s: string) {
    forall i :: 0 <= i < |s| ==> IsSpace(s[i])
  }

  /** No white space at either end. */
  predicate Trimmed(s: string) {
    s == [] || (!IsSpace(s[0]) && !IsSpace(s[|s| - 1]))
  }

  /** strings.HasPrefix */
  predicate HasPrefix(s: string, prefix: string) {
    prefix <= s
  }

  // ---------------------------------------------------------------------------
  // TrimSpace
  // ---------------------------------------------------------------------------

  function TrimLeft(s: string): (r: string)
    ensures |r| <= |s|
    ensures r == [] || !IsSpace(r[0])
  {
    if s != [] && IsSpace(s[0]) then TrimLeft(s[1..]) else s
  }

  function TrimRight(s: string): (r: string)
    ensures |r| <= |s|
    ensures r == [] || !IsSpace(r[|r| - 1])
  {
    if s != [] && IsSpace(s[|s| - 1]) then TrimRight(s[..|s| - 1]) else s
  }

  /** TrimLeft keeps a suffix and removes white space only. */
  lemma {:induction false} TrimLeftSuffix(s: string)
    ensures TrimLeft(s) == s[|s| - |TrimLeft(s)|..]
    ensures AllSpace(s[..|s| - |TrimLeft(s)|])
  {
    if s != [] && IsSpace(s[0]) {
      TrimLeftSuffix(s[1..]);
      var k := |s| - |TrimLeft(s)|;
      assert s[1..][k - 1..] == s[k..];
      forall m | 0 <= m < k ensures IsSpace(s[m]) {
        if m > 0 { assert s[m] == s[1..][m - 1]; }
      }
    }
  }

  /** TrimRight keeps a prefix and removes white space only. */
  lemma {:induction false} TrimRightPrefix(s: string)
    ensures TrimRight(s) == s[..|TrimRight(s)|]
    ensures AllSpace(s[|TrimRight(s)|..])
  {
    if s != [] && IsSpace(s[|s| - 1]) {
      var front := s[..|s| - 1];
      TrimRightPrefix(front);
      var k := |TrimRight(s)|;
      assert front[..k] == s[..k];
      forall m | k <= m < |s| ensures IsSpace(s[m]) {
        if m < |s| - 1 { assert s[m] == front[m]; }
      }
    }
  }

  /** `r` is `s` with white space, and only white space, removed from both ends. */
  ghost predicate IsTrimOf(r: string, s: string) {
    exists i, j :: 0 <= i <= j <= |s| && r == s[i..j] && AllSpace(s[..i]) && AllSpace(s[j..])
  }

  /** strings.TrimSpace */
  function TrimSpace(s: string): (r: string)
    ensures Trimmed(r)
  {
    TrimRightPrefix(TrimLeft(s));
    TrimRight(TrimLeft(s))
  }

  /** TrimSpace removes white space, and only white space, from both ends. */
  lemma TrimSpaceIsTrimOf(s: string)
    ensures IsTrimOf(TrimSpace(s), s)
  {
    var l := TrimLeft(s);
    var r := TrimRight(l);
    var i := |s| - |l|;
    TrimLeftSuffix(s);
    TrimRightPrefix(l);
    assert r == s[i..i + |r|];
    assert s[i + |r|..] == l[|r|..];
  }

  /** Text that is already trimmed is left alone. */
  lemma TrimSpaceOfTrimmed(s: string)
    requires Trimmed(s)
    ensures TrimSpace(s) == s
  {
  }

  /** Text made only of white space trims to the empty string. */
  lemma TrimSpaceOfAllSpace(s: string)
    requires AllSpace(s)
    ensures TrimSpace(s) == ""
  {
    var r := TrimSpace(s);
    TrimSpaceIsTrimOf(s);
    var i, j :| 0 <= i <= j <= |s| && r == s[i..j] && AllSpace(s[..i]) && AllSpace(s[j..]);
    assert AllSpace(r);
  }

  // ---------------------------------------------------------------------------
  // Split and Join on a one-character separator
  // ---------------------------------------------------------------------------

  /** Number of occurrences of `c` in `s`. */
  function Count(s: string, c: char): nat {
    if s == [] then 0 else (if s[0] == c then 1 else 0) + Count(s[1..], c)
  }

  /**
    * strings.Split with a one-character separator: the pieces between the
    * separators, one more than there are separators, none containing one.
    */
  function Split(s: string, c: char): (r: seq<string>)
    ensures |r| == Count(s, c) + 1
    ensures forall i :: 0 <= i < |r| ==> c !in r[i]
  {
    if s == [] then [""]
    else if s[0] == c then [""] + Split(s[1..], c)
    else
      var rest := Split(s[1..], c);
      [[s[0]] + rest[0]] + rest[1..]
  }

  /** strings.Join with a one-character separator. */
  function Join(parts: seq<string>, c: char): string {
    if |parts| == 0 then ""
    else if |parts| == 1 then parts[0]
    else parts[0] + [c] + Join(parts[1..], c)
  }

  /** Joining the pieces back with the separator gives the original text. */
  lemma {:induction false} JoinSplit(s: string, c: char)
    ensures Join(Split(s, c), c) == s
  {
    if s == [] {
    } else if s[0] == c {
      JoinSplit(s[1..], c);
    } else {
      var rest := Split(s[1..], c);
      JoinSplit(s[1..], c);
      if |rest| > 1 {
        assert Join(rest, c) == rest[0] + [c] + Join(rest[1..], c);
        assert rest[1..][1..] == rest[2..];
      }
    }
  }

  /** Text without the separator is a single piece. */
  lemma {:induction false} SplitWithoutSeparator(s: string, c: char)
    requires c !in s
    ensures Split(s, c) == [s]
  {
    if s != [] {
      assert c !in s[1..] by {
        forall k | 0 <= k < |s[1..]| ensures s[1..][k] != c { assert s[1..][k] == s[k + 1]; }
      }
      SplitWithoutSeparator(s[1..], c);
      assert [s[0]] + s[1..] == s;
    }
  }

  /** Splitting at one separator splits the two sides independently. */
  lemma {:induction false} SplitAround(a: string, b: string, c: char)
    ensures Split(a + [c] + b, c) == Split(a, c) + Split(b, c)
  {
    var s := a + [c] + b;
    if a == [] {
      assert s[1..] == b;
    } else {
      assert s[1..] == a[1..] + [c] + b;
      SplitAround(a[1..], b, c);
    }
  }

  /** Pieces without the separator survive a Join followed by a Split. */
  lemma {:induction false} SplitJoin(parts: seq<string>, c: char)
    requires |parts| > 0
    requires forall i :: 0 <= i < |parts| ==> c !in parts[i]
    ensures Split(Join(parts, c), c) == parts
  {
    if |parts| == 1 {
      SplitWithoutSeparator(parts[0], c);
    } else {
      SplitJoin(parts[1..], c);
      SplitWithoutSeparator(parts[0], c);
      SplitAround(parts[0], Join(parts[1..], c), c);
      assert [parts[0]] + parts[1..] == parts;
    }
  }

  /** Joining two non-empty lists of pieces puts one separator between the two joins. */
  lemma {:induction false} JoinAppend(xs: seq<string>, ys: seq<string>, c: char)
    requires |xs| > 0 && |ys| > 0
    ensures Join(xs + ys, c) == Join(xs, c) + [c] + Join(ys, c)
  {
    if |xs| > 1 {
      assert (xs + ys)[1..] == xs[1..] + ys;
      JoinAppend(xs[1..], ys, c);
    } else {
      assert (xs + ys)[1..] == ys;
    }
  }

  /** n + 1 empty pieces join to n separators. */
  lemma {:induction false} JoinEmpties(parts: seq<string>, c: char)
    requires |parts| > 0 && forall i :: 0 <= i < |parts| ==> parts[i] == ""
    ensures Join(parts, c) == seq(|parts| - 1, _ => c)
  {
    if |parts| > 1 {
      JoinEmpties(parts[1..], c);
      assert Join(parts, c) == [c] + seq(|parts| - 2, _ => c);
    }
  }

  /** A character absent from both parts is absent from their concatenation. */
  lemma NotInConcat(a: string, b: string, c: char)
    requires c !in a && c !in b
    ensures c !in a + b
  {
    assert forall i :: 0 <= i < |a + b| ==> (a + b)[i] == if i < |a| then a[i] else b[i - |a|];
  }

  /** Trimming never introduces a character. */
  lemma {:induction false} NotInTrimSpace(s: string, c: char)
    requires c !in s
    ensures c !in TrimSpace(s)
  {
    var r := TrimSpace(s);
    TrimSpaceIsTrimOf(s);
    var i, j :| 0 <= i <= j <= |s| && r == s[i..j] && AllSpace(s[..i]) && AllSpace(s[j..]);
    NotInSlice(s, i, j, c);
  }

  lemma NotInSlice(s: string, i: nat, j: nat, c: char)
    requires i <= j <= |s| && c !in s
    ensures c !in s[i..j]
  {
    forall k | 0 <= k < j - i ensures s[i..j][k] != c {
      assert s[i..j][k] == s[i + k];
    }
  }

  // ---------------------------------------------------------------------------
  // Subsequences: what is left after deleting characters
  // ---------------------------------------------------------------------------

  /** `a` can be obtained from `b` by deleting characters. */
  predicate IsSubsequence(a: string, b: string)
    decreases |b|
  {
    a == [] || (b != [] && ((a[0] == b[0] && IsSubsequence(a[1..], b[1..])) || IsSubsequence(a, b[1..])))
  }

  lemma {:induction false} SubsequenceReflexive(a: string)
    ensures IsSubsequence(a, a)
  {
    if a != [] {
      SubsequenceReflexive(a[1..]);
    }
  }

  lemma {:induction false} SubsequenceTransitive(a: string, b: string, c: string)
    requires IsSubsequence(a, b) && IsSubsequence(b, c)
    ensures IsSubsequence(a, c)
    decreases |c|
  {
    if a != [] {
      if IsSubsequence(b, c[1..]) {
        SubsequenceTransitive(a, b, c[1..]);
      } else if IsSubsequence(a, b[1..]) {
        SubsequenceTransitive(a, b[1..], c[1..]);
      } else {
        SubsequenceTransitive(a[1..], b[1..], c[1..]);
      }
    }
  }

  /** Putting characters in front keeps a subsequence a subsequence. */
  lemma {:induction false} SubsequencePrepend(a: string, x: string, b: string)
    requires IsSubsequence(a, b)
    ensures IsSubsequence(a, x + b)
  {
    if x == [] {
      assert x + b == b;
    } else {
      SubsequencePrepend(a, x[1..], b);
      assert (x + b)[1..] == x[1..] + b;
    }
  }

  lemma {:induction false} SubsequenceConcat(a1: string, b1: string, a2: string, b2: string)
    requires IsSubsequence(a1, b1) && IsSubsequence(a2, b2)
    ensures IsSubsequence(a1 + a2, b1 + b2)
    decreases |b1|
  {
    if a1 == [] {
      SubsequencePrepend(a2, b1, b2);
      assert a1 + a2 == a2;
    } else {
      assert (b1 + b2)[1..] == b1[1..] + b2;
      if a1[0] == b1[0] && IsSubsequence(a1[1..], b1[1..]) {
        SubsequenceConcat(a1[1..], b1[1..], a2, b2);
        assert (a1 + a2)[1..] == a1[1..] + a2;
      } else {
        SubsequenceConcat(a1, b1[1..], a2, b2);
      }
    }
  }

  /** Every infix is a subsequence. */
  lemma {:induction false} SubsequenceInfix(s: string, i: nat, j: nat)
    requires i <= j <= |s|
    ensures IsSubsequence(s[i..j], s)
  {
    var pre, mid, post := s[..i], s[i..j], s[j..];
    assert pre + mid + post == s;
    assert mid + [] == mid;
    SubsequenceReflexive(mid);
    SubsequencePrepend(mid, pre, mid);
    SubsequenceConcat(mid, pre + mid, [], post);
  }

  lemma {:induction false} SubsequenceLength(a: string, b: string)
    requires IsSubsequence(a, b)
    ensures |a| <= |b|
    decreases |b|
  {
    if a != [] {
      if a[0] == b[0] && IsSubsequence(a[1..], b[1..]) {
        SubsequenceLength(a[1..], b[1..]);
      } else {
        SubsequenceLength(a, b[1..]);
      }
    }
  }

  /** A subsequence as long as the text is the text itself: deleting nothing changes nothing. */
  lemma {:induction false} SubsequenceSameLength(a: string, b: string)
    requires IsSubsequence(a, b) && |a| == |b|
    ensures a == b
    decreases |b|
  {
    if a != [] {
      if a[0] == b[0] && IsSubsequence(a[1..], b[1..]) {
        SubsequenceSameLength(a[1..], b[1..]);
        assert a == [a[0]] + a[1..] && b == [b[0]] + b[1..];
      } else {
        SubsequenceLength(a, b[1..]);
      }
    }
  }

  /** Deleting characters from white space leaves white space. */
  lemma {:induction false} SubsequenceOfAllSpace(a: string, b: string)
    requires IsSubsequence(a, b) && AllSpace(b)
    ensures AllSpace(a)
    decreases |b|
  {
    if a != [] {
      assert AllSpace(b[1..]) by {
        forall k | 0 <= k < |b[1..]| ensures IsSpace(b[1..][k]) { assert b[1..][k] == b[k + 1]; }
      }
      if a[0] == b[0] && IsSubsequence(a[1..], b[1..]) {
        SubsequenceOfAllSpace(a[1..], b[1..]);
        forall k | 0 <= k < |a| ensures IsSpace(a[k]) {
          if k > 0 { assert a[k] == a[1..][k - 1]; }
        }
      } else {
        SubsequenceOfAllSpace(a, b[1..]);
      }
    }
  }

  /** Joining piecewise subsequences gives a subsequence of the join. */
  lemma {:induction false} JoinSubsequence(xs: seq<string>, ys: seq<string>, c: char)
    requires |xs| == |ys|
    requires forall i :: 0 <= i < |xs| ==> IsSubsequence(xs[i], ys[i])
    ensures IsSubsequence(Join(xs, c), Join(ys, c))
  {
    if |xs| == 1 {
    } else if |xs| > 1 {
      JoinSubsequence(xs[1..], ys[1..], c);
      SubsequenceReflexive([c]);
      SubsequenceConcat(xs[0], ys[0], [c], [c]);
      SubsequenceConcat(xs[0] + [c], ys[0] + [c], Join(xs[1..], c), Join(ys[1..], c));
    }
  }

  /** The trimmed text is a subsequence of the original. */
  lemma TrimSpaceSubsequence(s: string)
    ensures IsSubsequence(TrimSpace(s), s)
  {
    var r := TrimSpace(s);
    TrimSpaceIsTrimOf(s);
    var i, j :| 0 <= i <= j <= |s| && r == s[i..j] && AllSpace(s[..i]) && AllSpace(s[j..]);
    SubsequenceInfix(s, i, j);
  }
}
