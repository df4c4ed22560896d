/** The Python `str` built-ins the core relies on, over strings as sequences of
    code points: `startswith`, `isspace`, `strip`, `split` (with a separator and
    no limit) and `replace`. */
module PyStr {

  /** `s.startswith(p)` */
  predicate StartsWith(s: string, p: string) {
    |p| <= |s| && s[..|p|] == p
  }

  /** `c.isspace()`: the characters `str.strip()` removes when called without
      arguments (Unicode white space and the ASCII separators 0x1c to 0x1f). */
  predicate IsSpace(c: char) {
    c in WhiteSpace
  }

  const WhiteSpace: set<char> :=
    {' ', '\t', '\n', '\U{0b}', '\U{0c}', '\r', '\U{1c}', '\U{1d}', '\U{1e}', '\U{1f}',
     '\U{85}', '\U{a0}', '\U{1680}',
     '\U{2000}', '\U{2001}', '\U{2002}', '\U{2003}', '\U{2004}', '\U{2005}',
     '\U{2006}', '\U{2007}', '\U{2008}', '\U{2009}', '\U{200a}',
     '\U{2028}', '\U{2029}', '\U{202f}', '\U{205f}', '\U{3000}'}

  predicate AllSpace(s: string) {
    forall k :: 0 <= k < |s| ==> IsSpace(s[k])
  }

  /** The end of the run of white space that starts at `i`. */
  function SkipSpace(s: string, i: nat): (j: nat)
    requires i <= |s|
    ensures i <= j <= |s|
    ensures forall k :: i <= k < j ==> IsSpace(s[k])
    ensures j == |s| || !IsSpace(s[j])
    decreases |s| - i
  {
    if i < |s| && IsSpace(s[i]) then SkipSpace(s, i + 1) else i
  }

  /** The start of the run of white space that ends at `j`, going no lower than `lo`. */
  function SkipSpaceBack(s: string, lo: nat, j: nat): (i: nat)
    requires lo <= j <= |s|
    ensures lo <= i <= j
    ensures forall k :: i <= k < j ==> IsSpace(s[k])
    ensures i == lo || !IsSpace(s[i - 1])
    decreases j - lo
  {
    if lo < j && IsSpace(s[j - 1]) then SkipSpaceBack(s, lo, j - 1) else j
  }

  /** `s.strip()`: neither starts nor ends with white space, and is empty exactly
      when `s` is all white space (`StripSlice` says where it sits in `s`). */
  function Strip(s: string): (r: string)
    ensures |r| <= |s|
    ensures r == [] || (!IsSpace(r[0]) && !IsSpace(r[|r| - 1]))
    ensures r == [] <==> AllSpace(s)
  {
    var i := SkipSpace(s, 0);
    var j := SkipSpaceBack(s, i, |s|);
    s[i..j]
  }

  /** Where the stripped text sits in `s`: a slice with only white space around it. */
  lemma StripSlice(s: string)
    ensures exists i, j :: && 0 <= i <= j <= |s| && Strip(s) == s[i..j]
                           && (forall k :: 0 <= k < i ==> IsSpace(s[k]))
                           && (forall k :: j <= k < |s| ==> IsSpace(s[k]))
  {
    var i := SkipSpace(s, 0);
    var j := SkipSpaceBack(s, i, |s|);
    assert Strip(s) == s[i..j];
  }

  /** The index of the first `c` at or after `i`, or `|s|` when there is none:
      the end of the run of characters other than `c` that starts at `i`. */
  function RunEnd(s: string, i: nat, c: char): (j: nat)
    requires i <= |s|
    ensures i <= j <= |s|
    ensures forall k :: i <= k < j ==> s[k] != c
    ensures j < |s| ==> s[j] == c
    decreases |s| - i
  {
    if i == |s| || s[i] == c then i else RunEnd(s, i + 1, c)
  }

  /** A run free of `c` from `i` to `j` ends no earlier than `j`, and exactly
      there when `c` follows. */
  lemma RunEndPast(s: string, i: nat, j: nat, c: char)
    requires i <= j <= |s|
    requires forall k :: i <= k < j ==> s[k] != c
    ensures RunEnd(s, i, c) >= j
    ensures j < |s| && s[j] == c ==> RunEnd(s, i, c) == j
  {
  }

  /** A run that matches `p` from `i`, where `p` is free of `c`, ends no earlier
      than the end of `p`, and exactly there when `c` follows. */
  lemma RunEndOver(s: string, i: nat, p: string, c: char)
    requires i + |p| <= |s| && s[i..i + |p|] == p && c !in p
    ensures RunEnd(s, i, c) >= i + |p|
    ensures i + |p| < |s| && s[i + |p|] == c ==> RunEnd(s, i, c) == i + |p|
  {
    forall k | i <= k < i + |p|
      ensures s[k] != c
    {
      assert s[k] == p[k - i];
    }
    RunEndPast(s, i, i + |p|, c);
  }

  /** A prefix of `u` made of two parts gives both parts as slices of `u`. */
  lemma PrefixParts(u: string, x: string, y: string)
    requires |x| + |y| <= |u| && u[..|x| + |y|] == x + y
    ensures u[..|x|] == x && u[|x|..|x| + |y|] == y
  {
    assert u[..|x|] == u[..|x| + |y|][..|x|];
    assert u[|x|..|x| + |y|] == u[..|x| + |y|][|x|..];
  }

  /** A slice starts with each of its shorter slices from the same index. */
  lemma SlicePrefix(s: string, i: nat, j: nat, k: nat)
    requires i <= j <= k <= |s|
    ensures StartsWith(s[i..k], s[i..j])
  {
    assert s[i..k][..j - i] == s[i..j];
  }

  /** `s.split(sep)`: the text before the first `sep`, then the pieces of the rest;
      there is always at least one piece (`SplitPieces` says what they are). */
  function Split(s: string, sep: char): (parts: seq<string>)
    ensures |parts| >= 1
    decreases |s|
  {
    var i := RunEnd(s, 0, sep);
    if i == |s| then [s] else [s[..i]] + Split(s[i + 1..], sep)
  }

  /** The first piece is the text before the first `sep`. */
  lemma SplitHead(s: string, sep: char)
    ensures Split(s, sep)[0] == s[..RunEnd(s, 0, sep)]
    ensures sep !in Split(s, sep)[0]
  {
    var i := RunEnd(s, 0, sep);
    assert forall k :: 0 <= k < i ==> s[..i][k] == s[k];
  }

  /** No piece contains `sep`, and there is more than one piece exactly when
      `s` contains `sep`; otherwise the only piece is `s` itself. */
  lemma {:induction false} SplitPieces(s: string, sep: char)
    ensures var parts := Split(s, sep);
            && (forall i :: 0 <= i < |parts| ==> sep !in parts[i])
            && (|parts| == 1 <==> sep !in s)
            && (|parts| == 1 ==> parts[0] == s)
    decreases |s|
  {
    var i := RunEnd(s, 0, sep);
    if i < |s| {
      var rest := Split(s[i + 1..], sep);
      SplitPieces(s[i + 1..], sep);
      assert sep !in s[..i];
      assert Split(s, sep) == [s[..i]] + rest;
    }
  }

  /** `sep.join(parts)`: not used by the code, only the inverse that `SplitJoin`
      and `JoinSplit` relate `Split` to. */
  function Join(parts: seq<string>, sep: char): string
    requires |parts| >= 1
  {
    if |parts| == 1 then parts[0] else parts[0] + [sep] + Join(parts[1..], sep)
  }

  /** Splitting loses nothing: joining the pieces gives back the string. */
  lemma {:induction false} SplitJoin(s: string, sep: char)
    ensures Join(Split(s, sep), sep) == s
    decreases |s|
  {
    var i := RunEnd(s, 0, sep);
    if i < |s| {
      var rest := Split(s[i + 1..], sep);
      SplitJoin(s[i + 1..], sep);
      assert Split(s, sep) == [s[..i]] + rest;
      assert s == s[..i] + [sep] + s[i + 1..];
    }
  }

  /** Joining pieces free of `sep` and splitting again gives back the pieces. */
  lemma {:induction false} JoinSplit(parts: seq<string>, sep: char)
    requires |parts| >= 1
    requires forall i :: 0 <= i < |parts| ==> sep !in parts[i]
    ensures Split(Join(parts, sep), sep) == parts
  {
    if |parts| == 1 {
      SplitPieces(parts[0], sep);
    } else {
      JoinSplit(parts[1..], sep);
      SplitConcat(parts[0], Join(parts[1..], sep), sep);
      assert parts == [parts[0]] + parts[1..];
    }
  }

  /** A separator between two strings separates their pieces. */
  lemma {:induction false} SplitConcat(a: string, b: string, sep: char)
    ensures Split(a + [sep] + b, sep) == Split(a, sep) + Split(b, sep)
    decreases |a|
  {
    var s := a + [sep] + b;
    var i := RunEnd(a, 0, sep);
    RunEndConcat(a, b, sep);
    if i == |a| {
      assert s[..i] == a && s[i + 1..] == b;
    } else {
      assert s[..i] == a[..i];
      assert s[i + 1..] == a[i + 1..] + [sep] + b;
      SplitConcat(a[i + 1..], b, sep);
    }
  }

  /** The first `c` of `a + [c] + b` is the first `c` of `a`, or the inserted one. */
  lemma RunEndConcat(a: string, b: string, c: char)
    ensures RunEnd(a + [c] + b, 0, c) == RunEnd(a, 0, c)
  {
    var s := a + [c] + b;
    var i := RunEnd(a, 0, c);
    forall k | 0 <= k < i
      ensures s[k] != c
    {
      assert s[k] == a[k];
    }
    assert s[i] == c;
    RunEndPast(s, 0, i, c);
  }

  /** There are at least two pieces exactly when `s` contains `sep`. */
  lemma SplitSeveral(s: string, sep: char)
    ensures |Split(s, sep)| >= 2 <==> sep in s
  {
    var i := RunEnd(s, 0, sep);
    if i < |s| {
      assert s[i] == sep;
    } else {
      assert forall k :: 0 <= k < |s| ==> s[k] != sep;
    }
  }

  /** When `s` contains `sep`, the first two pieces are what `s` starts with,
      around a `sep` and followed by the end of `s` or another `sep`. */
  lemma SplitFirstTwo(s: string, sep: char)
    requires sep in s
    ensures var parts := Split(s, sep);
            var n := |parts[0]| + 1 + |parts[1]|;
            && |parts| >= 2 && n <= |s| && s[..n] == parts[0] + [sep] + parts[1]
            && (n == |s| || s[n] == sep)
  {
    SplitTwoPieces(s, sep);
    var i := RunEnd(s, 0, sep);
    SplitSecondRun(s, i, sep);
  }

  /** The text up to the end of the run after the `sep` at `i`. */
  lemma SplitSecondRun(s: string, i: nat, sep: char)
    requires i < |s| && s[i] == sep
    ensures var t := s[i + 1..];
            var j := RunEnd(t, 0, sep);
            && s[..i + 1 + j] == s[..i] + [sep] + t[..j]
            && (i + 1 + j == |s| || s[i + 1 + j] == sep)
  {
    var t := s[i + 1..];
    var j := RunEnd(t, 0, sep);
    assert s[..i + 1 + j] == s[..i] + [sep] + t[..j] by {
      assert s[..i + 1 + j] == s[..i + 1] + s[i + 1..i + 1 + j];
    }
    if j < |t| {
      assert s[i + 1 + j] == t[j];
    }
  }

  /** The first two pieces of a string that contains `sep`, as slices. */
  lemma SplitTwoPieces(s: string, sep: char)
    requires sep in s
    ensures var i := RunEnd(s, 0, sep);
            var t := s[i + 1..];
            var parts := Split(s, sep);
            && i < |s| && |parts| >= 2 && parts[0] == s[..i] && parts[1] == t[..RunEnd(t, 0, sep)]
  {
    var i := RunEnd(s, 0, sep);
    var t := s[i + 1..];
    SplitSeveral(s, sep);
    SplitHead(t, sep);
  }

  /** The first two pieces of a string that contains `sep` are free of `sep`. */
  lemma SplitFirstTwoFree(s: string, sep: char)
    requires sep in s
    ensures var parts := Split(s, sep);
            |parts| >= 2 && sep !in parts[0] && sep !in parts[1]
  {
    var i := RunEnd(s, 0, sep);
    var t := s[i + 1..];
    SplitSeveral(s, sep);
    SplitHead(s, sep);
    SplitHead(t, sep);
    assert Split(s, sep)[1] == Split(t, sep)[0];
  }

  /** `s.replace(pat, rep)` for a non-empty `pat`: every occurrence found scanning
      from the left, without overlaps, is replaced; removing occurrences never
      makes a string longer. */
  function Replace(s: string, pat: string, rep: string): (r: string)
    requires pat != []
    ensures rep == [] ==> |r| <= |s|
    decreases |s|
  {
    if StartsWith(s, pat) then rep + Replace(s[|pat|..], pat, rep)
    else if s == [] then []
    else [s[0]] + Replace(s[1..], pat, rep)
  }

  /** A string in which `pat` does not occur is left as it is. */
  lemma {:induction false} ReplaceNoMatch(s: string, pat: string, rep: string)
    requires pat != []
    requires forall k :: 0 <= k <= |s| ==> !StartsWith(s[k..], pat)
    ensures Replace(s, pat, rep) == s
    decreases |s|
  {
    if s != [] {
      assert s[0..] == s;
      forall k | 0 <= k <= |s| - 1
        ensures !StartsWith(s[1..][k..], pat)
      {
        assert s[1..][k..] == s[k + 1..];
      }
      ReplaceNoMatch(s[1..], pat, rep);
    }
  }

  /** An occurrence of a pattern whose first character does not recur in it
      cannot overlap the text before it, so it is replaced on its own and the
      text on either side is replaced independently. */
  lemma {:induction false} ReplaceSplice(a: string, b: string, pat: string, rep: string)
    requires pat != [] && pat[0] !in pat[1..]
    ensures Replace(a + pat + b, pat, rep) == Replace(a, pat, rep) + rep + Replace(b, pat, rep)
    decreases |a|
  {
    var s := a + pat + b;
    if a == [] {
      assert s[..|pat|] == pat && s[|pat|..] == b;
    } else if StartsWith(a, pat) {
      assert s[..|pat|] == a[..|pat|] && s[|pat|..] == a[|pat|..] + pat + b;
      ReplaceSplice(a[|pat|..], b, pat, rep);
    } else {
      NoStartAcross(a, b, pat);
      assert s[1..] == a[1..] + pat + b;
      ReplaceSplice(a[1..], b, pat, rep);
    }
  }

  /** A pattern whose first character does not recur in it cannot start inside
      the text in front of an occurrence of it, unless it starts there already. */
  lemma NoStartAcross(a: string, b: string, pat: string)
    requires a != [] && !StartsWith(a, pat)
    requires pat != [] && pat[0] !in pat[1..]
    ensures !StartsWith(a + pat + b, pat)
  {
    var s := a + pat + b;
    if |a| < |pat| {
      assert s[|a|] == pat[0];
      assert pat[|a|] == pat[1..][|a| - 1];
    } else {
      assert s[..|pat|] == a[..|pat|];
    }
  }
}
