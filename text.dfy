/** The string operations of .NET that the agent applies to markup text:
    `Trim`, `ToLower`, `StartsWith`, `Split('/')`, and the shape of an
    absolute URL that `new Uri(..)` accepts. Character classes follow .NET
    where they matter (`Char.IsWhiteSpace`); case mapping is ASCII only. */
module Text {

  // ---------------------------------------------------------------------
  // Character classes
  // ---------------------------------------------------------------------

  /** `Char.IsWhiteSpace`: U+0009..U+000D, U+0020, U+0085, U+00A0 and the
      Unicode space, line and paragraph separators. The same set is what the
      .NET regular-expression class `\s` matches. */
  predicate IsWhiteSpace(c: char) {
    c == ' ' || ('\t' <= c <= '\r') || c == '\U{0085}' || c == '\U{00A0}'
    || c == '\U{1680}' || ('\U{2000}' <= c <= '\U{200A}') || c == '\U{2028}'
    || c == '\U{2029}' || c == '\U{202F}' || c == '\U{205F}' || c == '\U{3000}'
  }

  predicate IsDigit(c: char) {
    '0' <= c <= '9'
  }

  predicate IsAsciiLetter(c: char) {
    ('a' <= c <= 'z') || ('A' <= c <= 'Z')
  }

  predicate AllWhiteSpace(s: string) {
    forall k :: 0 <= k < |s| ==> IsWhiteSpace(s[k])
  }

  /** No white space at either end. */
  predicate IsTrimmed(s: string) {
    s == [] || (!IsWhiteSpace(s[0]) && !IsWhiteSpace(s[|s| - 1]))
  }

  // ---------------------------------------------------------------------
  // Trim
  // ---------------------------------------------------------------------

  /** The first position at or after `i` that does not hold white space. */
  function SkipWhite(s: string, i: nat): (j: nat)
    requires i <= |s|
    ensures i <= j <= |s|
    ensures forall k :: i <= k < j ==> IsWhiteSpace(s[k])
    ensures j < |s| ==> !IsWhiteSpace(s[j])
    decreases |s| - i
  {
    if i < |s| && IsWhiteSpace(s[i]) then SkipWhite(s, i + 1) else i
  }

  /** Going back from `j`, no further than `lo`: the end of `s[lo..j]` once
      its trailing white space is removed. */
  function SkipWhiteBack(s: string, lo: nat, j: nat): (e: nat)
    requires lo <= j <= |s|
    ensures lo <= e <= j
    ensures forall k :: e <= k < j ==> IsWhiteSpace(s[k])
    ensures e > lo ==> !IsWhiteSpace(s[e - 1])
    decreases j
  {
    if j > lo && IsWhiteSpace(s[j - 1]) then SkipWhiteBack(s, lo, j - 1) else j
  }

  /** `Trim()`: the middle of `s` once white space is removed at both ends.
      `TrimDecomposition` and `TrimUnique` below say what it keeps and cuts. */
  function Trim(s: string): (r: string)
    ensures IsTrimmed(r)
    ensures |r| <= |s|
  {
    var i := SkipWhite(s, 0);
    var e := SkipWhiteBack(s, i, |s|);
    s[i..e]
  }

  /** The result of `Trim` is a contiguous piece of `s`, starting at the
      returned index, and everything cut away on either side of it is white
      space. */
  lemma TrimDecomposition(s: string) returns (i: nat)
    ensures i + |Trim(s)| <= |s|
    ensures Trim(s) == s[i..i + |Trim(s)|]
    ensures forall k :: 0 <= k < i ==> IsWhiteSpace(s[k])
    ensures forall k :: i + |Trim(s)| <= k < |s| ==> IsWhiteSpace(s[k])
  {
    i := SkipWhite(s, 0);
    var e := SkipWhiteBack(s, i, |s|);
    assert Trim(s) == s[i..e];
  }

  lemma {:induction false} SkipWhiteAt(s: string, i: nat, m: nat)
    requires i <= m <= |s|
    requires forall k :: i <= k < m ==> IsWhiteSpace(s[k])
    requires m == |s| || !IsWhiteSpace(s[m])
    ensures SkipWhite(s, i) == m
    decreases m - i
  {
    if i < m {
      SkipWhiteAt(s, i + 1, m);
    }
  }

  lemma {:induction false} SkipWhiteBackAt(s: string, lo: nat, j: nat, e: nat)
    requires lo <= e <= j <= |s|
    requires forall k :: e <= k < j ==> IsWhiteSpace(s[k])
    requires e == lo || !IsWhiteSpace(s[e - 1])
    ensures SkipWhiteBack(s, lo, j) == e
    decreases j
  {
    if e < j {
      SkipWhiteBackAt(s, lo, j - 1, e);
    }
  }

  /** Trim is determined by its meaning: whenever `s` is some white space,
      then a trimmed piece `r`, then more white space, `Trim(s)` is that `r`. */
  lemma TrimUnique(a: string, r: string, b: string)
    requires AllWhiteSpace(a) && AllWhiteSpace(b) && IsTrimmed(r)
    ensures Trim(a + r + b) == r
  {
    var s := a + r + b;
    var m := |a| + |r|;
    forall k | 0 <= k < |a| ensures IsWhiteSpace(s[k]) {
      assert s[k] == a[k];
    }
    forall k | m <= k < |s| ensures IsWhiteSpace(s[k]) {
      assert s[k] == b[k - m];
    }
    if r == [] {
      SkipWhiteAt(s, 0, |s|);
      SkipWhiteBackAt(s, |s|, |s|, |s|);
    } else {
      assert s[|a|] == r[0];
      assert s[m - 1] == r[|r| - 1];
      SkipWhiteAt(s, 0, |a|);
      SkipWhiteBackAt(s, |a|, |s|, m);
      assert s[|a|..m] == r;
    }
  }

  /** Trimming twice is trimming once. */
  lemma TrimIdempotent(s: string)
    ensures Trim(Trim(s)) == Trim(s)
  {
    var r := Trim(s);
    assert [] + r + [] == r;
    TrimUnique([], r, []);
  }

  // ---------------------------------------------------------------------
  // Case mapping and prefixes
  // ---------------------------------------------------------------------

  /** Lower-case mapping of one character, ASCII letters only. */
  function LowerChar(c: char): (l: char)
    ensures !('A' <= l <= 'Z')
    ensures IsAsciiLetter(c) <==> IsAsciiLetter(l)
    ensures !IsAsciiLetter(c) ==> l == c
  {
    if 'A' <= c <= 'Z' then (c as int + 32) as char else c
  }

  /** `ToLower()` with the ASCII case mapping. */
  function ToLower(s: string): (r: string)
    ensures |r| == |s|
    ensures forall i :: 0 <= i < |s| ==> r[i] == LowerChar(s[i])
  {
    if s == [] then [] else [LowerChar(s[0])] + ToLower(s[1..])
  }

  /** Lower-casing a lower-cased text changes nothing. */
  lemma ToLowerIdempotent(s: string)
    ensures ToLower(ToLower(s)) == ToLower(s)
  {
  }

  /** Lower-casing a text, letter by letter. */
  lemma ToLowerIs(s: string, lower: string)
    requires |s| == |lower|
    requires forall k :: 0 <= k < |s| ==> LowerChar(s[k]) == lower[k]
    ensures ToLower(s) == lower
  {
  }

  /** Ordinal `StartsWith`. */
  predicate StartsWith(s: string, prefix: string) {
    |prefix| <= |s| && s[..|prefix|] == prefix
  }

  // ---------------------------------------------------------------------
  // Split on a separator and the last segment
  // ---------------------------------------------------------------------

  /** The inverse of `Split`: the parts joined with the separator. */
  function Join(parts: seq<string>, sep: char): string
    requires |parts| >= 1
  {
    if |parts| == 1 then parts[0]
    else Join(parts[..|parts| - 1], sep) + [sep] + parts[|parts| - 1]
  }

  /** `String.Split(sep)` with no options: every separator ends a part,
      empty parts are kept, and an empty string gives one empty part.
      `SplitHasNoSeparator` and `SplitJoin` say what the parts are. */
  function Split(s: string, sep: char): (parts: seq<string>)
    ensures |parts| >= 1
  {
    if s == [] then [[]]
    else
      var init := Split(s[..|s| - 1], sep);
      var c := s[|s| - 1];
      if c == sep then init + [[]]
      else init[..|init| - 1] + [init[|init| - 1] + [c]]
  }

  /** No part holds the separator. */
  lemma {:induction false} SplitHasNoSeparator(s: string, sep: char)
    ensures forall k :: 0 <= k < |Split(s, sep)| ==> sep !in Split(s, sep)[k]
  {
    if s != [] {
      var front, c := s[..|s| - 1], s[|s| - 1];
      SplitHasNoSeparator(front, sep);
      var init := Split(front, sep);
      if c != sep {
        var parts := Split(s, sep);
        assert parts == init[..|init| - 1] + [init[|init| - 1] + [c]];
        forall k | 0 <= k < |parts| ensures sep !in parts[k] {
          if k < |init| - 1 {
            assert parts[k] == init[k];
          }
        }
      }
    }
  }

  /** Joining the parts with the separator gives back the text. */
  lemma {:induction false} SplitJoin(s: string, sep: char)
    ensures Join(Split(s, sep), sep) == s
  {
    if s != [] {
      var front, c := s[..|s| - 1], s[|s| - 1];
      SplitJoin(front, sep);
      var init := Split(front, sep);
      assert s == front + [c];
      if c == sep {
        assert Split(s, sep) == init + [[]];
        JoinEmptyLast(init, sep);
      } else {
        assert Split(s, sep) == init[..|init| - 1] + [init[|init| - 1] + [c]];
        JoinExtendLast(init, sep, c);
      }
    }
  }

  /** An empty last part adds the separator alone. */
  lemma JoinEmptyLast(parts: seq<string>, sep: char)
    requires |parts| >= 1
    ensures Join(parts + [[]], sep) == Join(parts, sep) + [sep]
  {
    var longer := parts + [[]];
    assert longer[..|longer| - 1] == parts;
    assert Join(longer, sep) == Join(parts, sep) + [sep] + [];
  }

  /** Extending the last part extends the joined text. */
  lemma JoinExtendLast(parts: seq<string>, sep: char, c: char)
    requires |parts| >= 1
    ensures Join(parts[..|parts| - 1] + [parts[|parts| - 1] + [c]], sep) == Join(parts, sep) + [c]
  {
    var n := |parts|;
    var last := parts[n - 1] + [c];
    var extended := parts[..n - 1] + [last];
    if n > 1 {
      assert extended[..n - 1] == parts[..n - 1];
      assert Join(extended, sep) == Join(parts[..n - 1], sep) + [sep] + last;
    }
  }

  /** A text without the separator splits into itself alone. */
  lemma {:induction false} SplitWithoutSeparator(s: string, sep: char)
    requires sep !in s
    ensures Split(s, sep) == [s]
  {
    if s != [] {
      var front, c := s[..|s| - 1], s[|s| - 1];
      assert sep !in front;
      SplitWithoutSeparator(front, sep);
      assert c != sep;
      assert Split(s, sep) == [front + [c]] by {
        assert Split(front, sep) == [front];
      }
      assert front + [c] == s;
    }
  }

  /** `r` is a piece at the end of `s` holding no '/'. */
  predicate IsTailSegment(r: string, s: string) {
    '/' !in r && |r| <= |s| && s[|s| - |r|..] == r
  }

  /** The part of `s` after its last '/': it holds no '/', it ends `s`, and
      unless it is all of `s` the character before it is a '/'.
      `LastSegmentIsLastPart` shows it is `s.Split('/').Last()`;
      Path.GetFileName on a '/'-separated path computes the same value. */
  function LastSegment(s: string): (r: string)
    ensures IsTailSegment(r, s)
    ensures |r| < |s| ==> s[|s| - |r| - 1] == '/'
  {
    if s == [] || s[|s| - 1] == '/' then []
    else
      var front := s[..|s| - 1];
      var r := LastSegment(front) + [s[|s| - 1]];
      assert s == front + [s[|s| - 1]];
      r
  }

  /** The last segment is the last part `Split('/')` produces. */
  lemma {:induction false} LastSegmentIsLastPart(s: string)
    ensures LastSegment(s) == Split(s, '/')[|Split(s, '/')| - 1]
  {
    if s != [] {
      LastSegmentIsLastPart(s[..|s| - 1]);
    }
  }

  /** Without any '/', the last segment is the whole text. */
  lemma LastSegmentWithoutSlash(s: string)
    requires '/' !in s
    ensures LastSegment(s) == s
  {
    assert |LastSegment(s)| == |s|;
  }

  /** Deriving the last segment of a last segment changes nothing. */
  lemma LastSegmentIdempotent(s: string)
    ensures LastSegment(LastSegment(s)) == LastSegment(s)
  {
    LastSegmentWithoutSlash(LastSegment(s));
  }

  // ---------------------------------------------------------------------
  // Searching and absolute URLs
  // ---------------------------------------------------------------------

  /** Index of the first occurrence of `c`, or `|s|` when there is none. */
  function IndexOf(s: string, c: char): (i: nat)
    ensures i <= |s|
    ensures i < |s| ==> s[i] == c
    ensures forall k :: 0 <= k < i ==> s[k] != c
  {
    IndexFrom(s, c, 0)
  }

  /** Index of the first occurrence of `c` at or after `i`, or `|s|`. */
  function IndexFrom(s: string, c: char, i: nat): (j: nat)
    requires i <= |s|
    ensures i <= j <= |s|
    ensures j < |s| ==> s[j] == c
    ensures forall k :: i <= k < j ==> s[k] != c
    decreases |s| - i
  {
    if i == |s| || s[i] == c then i else IndexFrom(s, c, i + 1)
  }

  /** The first occurrence is determined by its meaning: the index before
      which `c` does not occur and at which it does (or the end). */
  lemma IndexOfIs(s: string, c: char, k: nat)
    requires k <= |s|
    requires forall j :: 0 <= j < k ==> s[j] != c
    requires k == |s| || s[k] == c
    ensures IndexOf(s, c) == k
  {
  }

  predicate IsSchemeChar(c: char) {
    IsAsciiLetter(c) || IsDigit(c) || c == '+' || c == '-' || c == '.'
  }

  /** What `new Uri(s)` needs to succeed, as far as this model goes: a
      scheme (a letter, then letters, digits, '+', '-' or '.') ended by the
      first ':', followed by something. */
  predicate AbsoluteUrl(s: string) {
    var k := IndexOf(s, ':');
    1 <= k < |s| - 1 && IsAsciiLetter(s[0]) && forall j :: 0 < j < k ==> IsSchemeChar(s[j])
  }
}
