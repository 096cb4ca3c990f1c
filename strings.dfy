/** The parts of Python's `str` and `re` that the translator relies on:
    character classes, substring search (`in`, `find`), `split`, `join`
    and `strip`, written over `string` (a `seq<char>`). */
module Strings {

  /** Python's whitespace (`str.isspace()`, `str.strip()` and `\s` in a
      `str` pattern all use this set of code points). */
  predicate IsSpace(c: char) {
    || ('\t' <= c <= '\r')
    || ('\U{1C}' <= c <= '\U{1F}')
    || c == ' '
    || c == '\U{85}'
    || c == '\U{A0}'
    || c == '\U{1680}'
    || ('\U{2000}' <= c <= '\U{200A}')
    || c == '\U{2028}'
    || c == '\U{2029}'
    || c == '\U{202F}'
    || c == '\U{205F}'
    || c == '\U{3000}'
  }

  /** `\w` restricted to ASCII: letters, digits and the underscore. */
  predicate IsWordChar(c: char) {
    ('a' <= c <= 'z') || ('A' <= c <= 'Z') || ('0' <= c <= '9') || c == '_'
  }

  lemma SpaceIsNotWord(c: char)
    ensures IsSpace(c) ==> !IsWordChar(c)
  {
  }

  predicate AllSpace(s: string) {
    forall k :: 0 <= k < |s| ==> IsSpace(s[k])
  }

  predicate AllWord(s: string) {
    forall k :: 0 <= k < |s| ==> IsWordChar(s[k])
  }

  /** `pat` occurs in `s` starting at index `i`. */
  predicate OccursAt(s: string, pat: string, i: nat) {
    i + |pat| <= |s| && s[i..i + |pat|] == pat
  }

  /** Python's `pat in s`. */
  predicate Contains(s: string, pat: string) {
    exists i :: 0 <= i <= |s| && OccursAt(s, pat, i)
  }

  lemma OccursAtTail(s: string, pat: string, j: nat)
    requires |s| > 0
    ensures OccursAt(s, pat, j + 1) <==> OccursAt(s[1..], pat, j)
  {
    if j + 1 + |pat| <= |s| {
      assert s[j + 1..j + 1 + |pat|] == s[1..][j..j + |pat|];
    }
  }

  lemma OccursAtTailAll(s: string, pat: string)
    requires |s| > 0
    ensures forall j: nat :: 0 < j ==> (OccursAt(s, pat, j) <==> OccursAt(s[1..], pat, j - 1))
  {
    forall j: nat | 0 < j ensures OccursAt(s, pat, j) <==> OccursAt(s[1..], pat, j - 1) {
      OccursAtTail(s, pat, j - 1);
    }
  }

  /** The index of the first occurrence of `pat` in `s`; when there is none,
      `|s|` (where `str.find` answers -1). */
  function Find(s: string, pat: string): (i: nat)
    ensures i <= |s|
    ensures i + |pat| <= |s| ==> OccursAt(s, pat, i)
    ensures i + |pat| > |s| ==> i == |s|
    ensures forall j: nat :: j < i ==> !OccursAt(s, pat, j)
    decreases |s|
  {
    if |s| < |pat| then |s|
    else if s[..|pat|] == pat then 0
    else
      var k := Find(s[1..], pat);
      OccursAtTailAll(s, pat);
      assert !OccursAt(s, pat, 0);
      assert k + |pat| <= |s| - 1 ==> OccursAt(s, pat, k + 1);
      1 + k
  }

  /** `Find` reports an occurrence exactly when `pat in s`. */
  lemma FindContains(s: string, pat: string)
    ensures Contains(s, pat) <==> Find(s, pat) + |pat| <= |s|
  {
    var i := Find(s, pat);
    if i + |pat| <= |s| {
      assert OccursAt(s, pat, i);
    } else {
      assert forall j :: 0 <= j <= |s| ==> !OccursAt(s, pat, j);
    }
  }

  /** An occurrence with none before it is what `Find` returns. */
  lemma FindFirst(s: string, pat: string, i: nat)
    requires OccursAt(s, pat, i)
    requires forall j: nat :: j < i ==> !OccursAt(s, pat, j)
    ensures Find(s, pat) == i
  {
  }

  /** A pattern holding a character that `s` lacks does not occur in `s`. */
  lemma MissingChar(s: string, pat: string, m: nat)
    requires m < |pat| && pat[m] !in s
    ensures !Contains(s, pat)
  {
    forall j: nat | j + |pat| <= |s| ensures !OccursAt(s, pat, j) {
      assert s[j..j + |pat|][m] == s[j + m];
    }
  }

  lemma FindAbsent(s: string, pat: string)
    requires !Contains(s, pat)
    ensures Find(s, pat) == |s|
  {
    FindContains(s, pat);
  }

  /** Cutting at the first occurrence of a character `s` lacks keeps all of `s`. */
  lemma FindMissing(s: string, c: char)
    requires c !in s
    ensures s[..Find(s, [c])] == s
  {
    MissingChar(s, [c], 0);
    FindAbsent(s, [c]);
    assert s[..|s|] == s;
  }

  /** A prefix of `s` that ends before the first occurrence holds none. */
  lemma NoOccurrenceBefore(s: string, pat: string, n: nat)
    requires pat != [] && n <= |s|
    requires forall j: nat :: j < n ==> !OccursAt(s, pat, j)
    ensures !Contains(s[..n], pat)
  {
    forall j: nat | j + |pat| <= n ensures !OccursAt(s[..n], pat, j) {
      assert s[..n][j..j + |pat|] == s[j..j + |pat|];
      assert !OccursAt(s, pat, j);
    }
  }

  /** Python's `s.split(sep)` for a non-empty separator: the pieces between
      successive non-overlapping occurrences, scanning from the left. */
  function Split(s: string, sep: string): (parts: seq<string>)
    requires sep != []
    ensures |parts| >= 1
    decreases |s|
  {
    var i := Find(s, sep);
    if i + |sep| > |s| then [s]
    else [s[..i]] + Split(s[i + |sep|..], sep)
  }

  /** No piece of a split contains the separator. */
  lemma {:induction false} SplitPiecesFree(s: string, sep: string)
    requires sep != []
    ensures forall k :: 0 <= k < |Split(s, sep)| ==> !Contains(Split(s, sep)[k], sep)
    decreases |s|
  {
    var i := Find(s, sep);
    var parts := Split(s, sep);
    if i + |sep| > |s| {
      FindContains(s, sep);
      assert parts == [s];
    } else {
      NoOccurrenceBefore(s, sep, i);
      var tail := Split(s[i + |sep|..], sep);
      SplitPiecesFree(s[i + |sep|..], sep);
      assert parts == [s[..i]] + tail;
      forall k | 0 <= k < |parts| ensures !Contains(parts[k], sep) {
        if k > 0 { assert parts[k] == tail[k - 1]; }
      }
    }
  }

  /** Splitting at the first occurrence of the separator. */
  lemma SplitAt(s: string, sep: string, i: nat)
    requires sep != []
    requires OccursAt(s, sep, i)
    requires forall j: nat :: j < i ==> !OccursAt(s, sep, j)
    ensures Split(s, sep) == [s[..i]] + Split(s[i + |sep|..], sep)
  {
    FindFirst(s, sep, i);
  }

  /** A text without the separator splits into itself alone. */
  lemma SplitNone(s: string, sep: string)
    requires sep != []
    requires !Contains(s, sep)
    ensures Split(s, sep) == [s]
  {
    FindAbsent(s, sep);
  }

  /** Python's `sep.join(parts)`. */
  function Join(parts: seq<string>, sep: string): string
    decreases |parts|
  {
    if |parts| == 0 then []
    else if |parts| == 1 then parts[0]
    else parts[0] + sep + Join(parts[1..], sep)
  }

  lemma JoinCons(p: string, tail: seq<string>, sep: string)
    requires |tail| >= 1
    ensures Join([p] + tail, sep) == p + sep + Join(tail, sep)
  {
    assert ([p] + tail)[1..] == tail;
  }

  /** Joining two non-empty lists is joining each and putting the
      separator between them. */
  lemma {:induction false} JoinConcat(a: seq<string>, b: seq<string>, sep: string)
    requires |a| >= 1 && |b| >= 1
    ensures Join(a + b, sep) == Join(a, sep) + sep + Join(b, sep)
    decreases |a|
  {
    if |a| > 1 {
      JoinConcat(a[1..], b, sep);
      assert (a + b)[1..] == a[1..] + b;
      assert (a + b)[0] == a[0];
    }
  }

  /** Joining `m + t` with `t` non-empty: `m` contributes its joined text and
      one more separator only when it is non-empty. */
  lemma JoinPrefix(m: seq<string>, t: seq<string>, sep: string)
    requires |t| >= 1
    ensures Join(m + t, sep) == (if m == [] then [] else Join(m, sep) + sep) + Join(t, sep)
  {
    if m == [] {
      assert m + t == t;
    } else {
      JoinConcat(m, t, sep);
    }
  }

  /** Joining a list framed by non-empty head and tail lists. */
  lemma JoinAround(h: seq<string>, m: seq<string>, t: seq<string>, sep: string)
    requires |h| >= 1 && |t| >= 1
    ensures Join(h + m + t, sep)
      == Join(h, sep) + sep + ((if m == [] then [] else Join(m, sep) + sep) + Join(t, sep))
  {
    var mt := m + t;
    assert h + m + t == h + mt;
    JoinConcat(h, mt, sep);
    JoinPrefix(m, t, sep);
  }

  /** `s` is the text before an occurrence, the occurrence and the text after it. */
  lemma SliceAround(s: string, pat: string, i: nat)
    requires OccursAt(s, pat, i)
    ensures s == s[..i] + pat + s[i + |pat|..]
  {
  }

  /** Joining the pieces of a split with the same separator gives back the
      original text. */
  lemma {:induction false} JoinSplit(s: string, sep: string)
    requires sep != []
    ensures Join(Split(s, sep), sep) == s
    decreases |s|
  {
    var i := Find(s, sep);
    if i + |sep| <= |s| {
      var rest := s[i + |sep|..];
      JoinSplit(rest, sep);
      var tail := Split(rest, sep);
      assert Split(s, sep) == [s[..i]] + tail;
      JoinCons(s[..i], tail, sep);
      SliceAround(s, sep, i);
    }
  }

  /** Splitting a join on a one-character separator that no part contains
      gives back the parts. */
  lemma {:induction false} SplitJoin(parts: seq<string>, c: char)
    requires |parts| >= 1
    requires forall k :: 0 <= k < |parts| ==> c !in parts[k]
    ensures Split(Join(parts, [c]), [c]) == parts
    decreases |parts|
  {
    var p := parts[0];
    assert c !in p;
    if |parts| == 1 {
      MissingChar(p, [c], 0);
      SplitNone(p, [c]);
    } else {
      var rest := parts[1..];
      var j := Join(rest, [c]);
      var s := p + [c] + j;
      assert Join(parts, [c]) == s;
      assert s[|p|..|p| + 1] == [c];
      forall m: nat | m < |p| ensures !OccursAt(s, [c], m) {
        assert s[m..m + 1] == [p[m]];
      }
      SplitAt(s, [c], |p|);
      assert s[..|p|] == p && s[|p| + 1..] == j;
      SplitJoin(rest, c);
      assert parts == [p] + rest;
    }
  }

  /** Splitting `a + sep + b` on a two-character separator whose characters
      differ, when neither `a` nor `b` contains it, yields exactly `[a, b]`. */
  lemma SplitPair(a: string, b: string, sep: string)
    requires |sep| == 2 && sep[0] != sep[1]
    requires !Contains(a, sep) && !Contains(b, sep)
    ensures Split(a + sep + b, sep) == [a, b]
  {
    var s := a + sep + b;
    assert s[|a|..|a| + 2] == sep;
    forall j: nat | j < |a| ensures !OccursAt(s, sep, j) {
      if j + 2 <= |a| {
        assert s[j..j + 2] == a[j..j + 2];
        assert !OccursAt(a, sep, j);
      } else {
        assert s[j + 1] == sep[0];
      }
    }
    FindFirst(s, sep, |a|);
    assert s[..|a|] == a && s[|a| + 2..] == b;
    assert Split(s, sep) == [a] + Split(b, sep);
    FindAbsent(b, sep);
    assert Split(b, sep) == [b];
  }

  /** Length of the longest prefix of `s` whose characters satisfy `p`. */
  function LeadingRun(s: string, p: char -> bool): (n: nat)
    ensures n <= |s|
    ensures forall k :: 0 <= k < n ==> p(s[k])
    ensures n < |s| ==> !p(s[n])
    decreases |s|
  {
    if |s| > 0 && p(s[0]) then 1 + LeadingRun(s[1..], p) else 0
  }

  /** Length of the longest suffix of `s` whose characters satisfy `p`. */
  function TrailingRun(s: string, p: char -> bool): (n: nat)
    ensures n <= |s|
    ensures forall k :: |s| - n <= k < |s| ==> p(s[k])
    ensures n < |s| ==> !p(s[|s| - 1 - n])
    decreases |s|
  {
    if |s| > 0 && p(s[|s| - 1]) then 1 + TrailingRun(s[..|s| - 1], p) else 0
  }

  /** `r` is `s` with the all-whitespace prefix of length `i` and an
      all-whitespace suffix removed. */
  predicate TrimmedAt(s: string, r: string, i: nat) {
    i + |r| <= |s| && s[i..i + |r|] == r && AllSpace(s[..i]) && AllSpace(s[i + |r|..])
  }

  /** Python's `s.strip()`. */
  function Strip(s: string): (r: string)
    ensures TrimmedAt(s, r, LeadingRun(s, IsSpace))
    ensures r != [] ==> !IsSpace(r[0]) && !IsSpace(r[|r| - 1])
    ensures r == [] <==> AllSpace(s)
  {
    var a := LeadingRun(s, IsSpace);
    PrefixAll(s, IsSpace, a);
    if a == |s| then
      assert s[..a] == s;
      []
    else
      var b := TrailingRun(s, IsSpace);
      SuffixAll(s, IsSpace, |s| - b);
      assert a < |s| - b;
      s[a..|s| - b]
  }

  /** The leading run of `a + b` is all of `a` when every character of `a`
      satisfies `p` and `b` does not start with one that does. */
  lemma {:induction false} LeadingRunConcat(a: string, b: string, p: char -> bool)
    requires forall k :: 0 <= k < |a| ==> p(a[k])
    requires b == [] || !p(b[0])
    ensures LeadingRun(a + b, p) == |a|
    decreases |a|
  {
    if a == [] {
      assert a + b == b;
    } else {
      assert (a + b)[0] == a[0];
      assert (a + b)[1..] == a[1..] + b;
      LeadingRunConcat(a[1..], b, p);
    }
  }

  /** A prefix whose characters all satisfy `p`, as a slice. */
  lemma PrefixAll(s: string, p: char -> bool, i: nat)
    requires i <= |s|
    requires forall k :: 0 <= k < i ==> p(s[k])
    ensures forall k :: 0 <= k < i ==> p(s[..i][k])
  {
    forall k | 0 <= k < i ensures p(s[..i][k]) {
      assert s[..i][k] == s[k];
    }
  }

  /** A suffix whose characters all satisfy `p`, as a slice. */
  lemma SuffixAll(s: string, p: char -> bool, i: nat)
    requires i <= |s|
    requires forall k :: i <= k < |s| ==> p(s[k])
    ensures forall k :: 0 <= k < |s| - i ==> p(s[i..][k])
  {
    forall k | 0 <= k < |s| - i ensures p(s[i..][k]) {
      assert s[i..][k] == s[i + k];
    }
  }

  /** The whitespace before and after a trimmed text, as indices into `s`. */
  lemma TrimmedAtIndices(s: string, r: string, i: nat)
    requires TrimmedAt(s, r, i)
    ensures forall k :: 0 <= k < i ==> IsSpace(s[k])
    ensures forall k :: i + |r| <= k < |s| ==> IsSpace(s[k])
    ensures forall k :: i <= k < i + |r| ==> s[k] == r[k - i]
  {
    forall k | 0 <= k < i ensures IsSpace(s[k]) { assert s[k] == s[..i][k]; }
    forall k | i + |r| <= k < |s| ensures IsSpace(s[k]) {
      assert s[k] == s[i + |r|..][k - i - |r|];
    }
  }

  /** Anything that is `s` trimmed of surrounding whitespace, with no
      whitespace at either end, is `Strip(s)`: the contract of `Strip`
      determines its result. */
  lemma StripUnique(s: string, r: string, i: nat)
    requires TrimmedAt(s, r, i)
    requires r != [] ==> !IsSpace(r[0]) && !IsSpace(r[|r| - 1])
    ensures Strip(s) == r
  {
    var q := Strip(s);
    var a := LeadingRun(s, IsSpace);
    TrimmedAtIndices(s, r, i);
    TrimmedAtIndices(s, q, a);
    if r != [] {
      assert !IsSpace(s[i]) && !IsSpace(s[i + |r| - 1]);
      assert a == i;
      assert q != [];
      assert !IsSpace(s[a + |q| - 1]);
      assert |q| == |r|;
    }
  }

  /** A substring of `s[lo..hi]` is a substring of `s`. */
  lemma ContainsSlice(s: string, lo: nat, hi: nat, pat: string)
    requires lo <= hi <= |s|
    requires Contains(s[lo..hi], pat)
    ensures Contains(s, pat)
  {
    var j :| 0 <= j <= hi - lo && OccursAt(s[lo..hi], pat, j);
    forall m | 0 <= m < |pat| ensures s[lo + j..lo + j + |pat|][m] == pat[m] {
      assert pat[m] == s[lo..hi][j..j + |pat|][m];
    }
    assert s[lo + j..lo + j + |pat|] == pat;
    assert OccursAt(s, pat, lo + j);
  }

  /** Around a character `c` that `pat` does not contain, `pat` occurs in
      `s` exactly when it occurs before or after that character. */
  lemma ContainsAround(s: string, i: nat, pat: string)
    requires i < |s| && s[i] !in pat
    ensures Contains(s, pat) <==> Contains(s[..i], pat) || Contains(s[i + 1..], pat)
  {
    if Contains(s, pat) {
      var j :| 0 <= j <= |s| && OccursAt(s, pat, j);
      forall m | j <= m < j + |pat| ensures s[m] == pat[m - j] {
        assert s[m] == s[j..j + |pat|][m - j];
      }
      if j + |pat| <= i {
        assert s[..i][j..j + |pat|] == s[j..j + |pat|];
        assert OccursAt(s[..i], pat, j);
      } else {
        assert s[i + 1..][j - i - 1..j - i - 1 + |pat|] == s[j..j + |pat|];
        assert OccursAt(s[i + 1..], pat, j - i - 1);
      }
    }
    if Contains(s[..i], pat) {
      ContainsSlice(s, 0, i, pat);
    }
    if Contains(s[i + 1..], pat) {
      assert s[i + 1..] == s[i + 1..|s|];
      ContainsSlice(s, i + 1, |s|, pat);
    }
  }

  /** When `c` does not occur in `pat`, `pat` occurs in `s` exactly when it
      occurs in one of the pieces of `s` split at `c`. */
  lemma {:induction false} ContainsSomePiece(s: string, c: char, pat: string)
    requires c !in pat
    ensures Contains(s, pat) <==>
      exists k :: 0 <= k < |Split(s, [c])| && Contains(Split(s, [c])[k], pat)
    decreases |s|
  {
    var parts := Split(s, [c]);
    var i := Find(s, [c]);
    if i + 1 > |s| {
      assert parts == [s];
      assert Contains(s, pat) <==> Contains(parts[0], pat);
    } else {
      var rest := s[i + 1..];
      ContainsSomePiece(rest, c, pat);
      var tail := Split(rest, [c]);
      SplitAt(s, [c], i);
      assert parts == [s[..i]] + tail;
      assert s[i] == c by { assert s[i..i + 1] == [c]; }
      ContainsAround(s, i, pat);
      if Contains(rest, pat) {
        var k :| 0 <= k < |tail| && Contains(tail[k], pat);
        assert parts[k + 1] == tail[k];
      }
      if exists k :: 0 <= k < |parts| && Contains(parts[k], pat) {
        var k :| 0 <= k < |parts| && Contains(parts[k], pat);
        if k > 0 {
          assert tail[k - 1] == parts[k];
        }
      }
    }
  }
}
