/** The two regular expressions the agent applies to chapter labels, as
    leftmost-match searches over a string:
      `([\d\.]+)`          the first run of digits and points;
      `Chapter\s+([\d\.]+)` the word "Chapter" (case-sensitive), white
                           space, then a run of digits and points.
    Both quantifiers are greedy, and `\s` and `[\d.]` share no character, so
    a match at a position is found without backtracking. `\d` is taken to be
    the ASCII digits. */
module Patterns {
  import opened Wrappers
  import opened Text
  import opened Decimals

  // ---------------------------------------------------------------------
  // Scanning
  // ---------------------------------------------------------------------

  /** The end of the run of digits and points starting at `i` (greedy
      `[\d.]*`). */
  function RunEnd(s: string, i: nat): (e: nat)
    requires i <= |s|
    ensures i <= e <= |s|
    ensures forall k :: i <= k < e ==> IsNumericChar(s[k])
    ensures e < |s| ==> !IsNumericChar(s[e])
    decreases |s| - i
  {
    if i < |s| && IsNumericChar(s[i]) then RunEnd(s, i + 1) else i
  }

  /** The first position at or after `i` holding a digit or a point, or
      `|s|` when there is none. */
  function NextNumeric(s: string, i: nat): (j: nat)
    requires i <= |s|
    ensures i <= j <= |s|
    ensures forall k :: i <= k < j ==> !IsNumericChar(s[k])
    ensures j < |s| ==> IsNumericChar(s[j])
    decreases |s| - i
  {
    if i == |s| || IsNumericChar(s[i]) then i else NextNumeric(s, i + 1)
  }

  /** Each scan is determined by what it promises. */
  lemma RunEndIs(s: string, i: nat, e: nat)
    requires i <= e <= |s|
    requires forall k :: i <= k < e ==> IsNumericChar(s[k])
    requires e == |s| || !IsNumericChar(s[e])
    ensures RunEnd(s, i) == e
  {
  }

  lemma NextNumericIs(s: string, i: nat, j: nat)
    requires i <= j <= |s|
    requires forall k :: i <= k < j ==> !IsNumericChar(s[k])
    requires j == |s| || IsNumericChar(s[j])
    ensures NextNumeric(s, i) == j
  {
  }

  // ---------------------------------------------------------------------
  // ([\d\.]+)
  // ---------------------------------------------------------------------

  /** The captured group of `Regex.Match(s, @"([\d\.]+)")`, `None` when the
      match fails. */
  function FirstNumericRun(s: string): (r: Option<string>)
    ensures r.None? <==> forall k :: 0 <= k < |s| ==> !IsNumericChar(s[k])
    ensures r.Some? ==> r.value != [] && AllNumeric(r.value)
  {
    var i := NextNumeric(s, 0);
    if i == |s| then None
    else
      var run := s[i..RunEnd(s, i)];
      assert run[0] == s[i];
      Some(run)
  }

  /** The run found is the leftmost maximal one: for a text made of
      characters that are not digits or points, then a run, then anything
      that does not continue the run, the capture is that run. */
  lemma FirstNumericRunIsLeftmost(pre: string, run: string, post: string)
    requires forall k :: 0 <= k < |pre| ==> !IsNumericChar(pre[k])
    requires run != [] && AllNumeric(run)
    requires post == [] || !IsNumericChar(post[0])
    ensures FirstNumericRun(pre + run + post) == Some(run)
  {
    var s := pre + run + post;
    var i, e := |pre|, |pre| + |run|;
    forall k | 0 <= k < i ensures !IsNumericChar(s[k]) { assert s[k] == pre[k]; }
    forall k | i <= k < e ensures IsNumericChar(s[k]) { assert s[k] == run[k - i]; }
    assert e < |s| ==> s[e] == post[0];
    assert s[i] == run[0];
    NextNumericIs(s, 0, i);
    RunEndIs(s, i, e);
    assert s[i..e] == run;
  }

  // ---------------------------------------------------------------------
  // Chapter\s+([\d\.]+)
  // ---------------------------------------------------------------------

  /** The captured group of `Chapter\s+([\d\.]+)` for a match starting at
      position `j` of `s`, `None` when no match starts there. */
  function ChapterMatchAt(s: string, j: nat): (r: Option<string>)
    requires j <= |s|
    ensures r.Some? ==> r.value != [] && AllNumeric(r.value)
  {
    if j + 7 <= |s| && s[j..j + 7] == "Chapter" then
      var w := SkipWhite(s, j + 7);
      if j + 7 < w < |s| && IsNumericChar(s[w]) then
        var run := s[w..RunEnd(s, w)];
        assert run[0] == s[w];
        Some(run)
      else None
    else None
  }

  /** What a match looks like: "Chapter", then at least one white-space
      character, then the captured run, then anything that does not continue
      the run. */
  lemma ChapterMatchAtShape(ws: string, run: string, post: string)
    requires ws != [] && AllWhiteSpace(ws)
    requires run != [] && AllNumeric(run)
    requires post == [] || !IsNumericChar(post[0])
    ensures ChapterMatchAt("Chapter" + ws + run + post, 0) == Some(run)
  {
    var s := "Chapter" + ws + run + post;
    var w, e := 7 + |ws|, 7 + |ws| + |run|;
    assert s[0..7] == "Chapter";
    forall k | 7 <= k < w ensures IsWhiteSpace(s[k]) { assert s[k] == ws[k - 7]; }
    forall k | w <= k < e ensures IsNumericChar(s[k]) { assert s[k] == run[k - w]; }
    assert s[w] == run[0];
    assert e < |s| ==> s[e] == post[0];
    SkipWhiteAt(s, 7, w);
    RunEndIs(s, w, e);
    assert s[w..e] == run;
  }

  /** The first position at or after `i` at which a match starts, or
      `|s|`. */
  function NextChapterMatch(s: string, i: nat): (j: nat)
    requires i <= |s|
    ensures i <= j <= |s|
    ensures forall k :: i <= k < j ==> ChapterMatchAt(s, k).None?
    ensures j < |s| ==> ChapterMatchAt(s, j).Some?
    decreases |s| - i
  {
    if i == |s| || ChapterMatchAt(s, i).Some? then i else NextChapterMatch(s, i + 1)
  }

  /** The captured group of `Regex.Match(s, @"Chapter\s+([\d\.]+)")`: the
      match that starts leftmost; `None` when there is no match. */
  function ChapterCapture(s: string): (r: Option<string>)
    ensures r.Some? ==> r.value != [] && AllNumeric(r.value)
    ensures r.None? <==> forall j :: 0 <= j < |s| ==> ChapterMatchAt(s, j).None?
    ensures r.Some? ==> exists j :: 0 <= j < |s| && ChapterMatchAt(s, j) == r
  {
    var i := NextChapterMatch(s, 0);
    if i < |s| then ChapterMatchAt(s, i) else None
  }

  /** The capture is the one of the leftmost position where a match
      starts. */
  lemma ChapterCaptureAt(s: string, j: nat)
    requires j < |s| && ChapterMatchAt(s, j).Some?
    requires forall k :: 0 <= k < j ==> ChapterMatchAt(s, k).None?
    ensures ChapterCapture(s) == ChapterMatchAt(s, j)
  {
    assert NextChapterMatch(s, 0) == j;
  }

  /** "Chapter 12" captures "12". */
  lemma ChapterCaptureExample()
    ensures ChapterCapture("Chapter 12") == Some("12")
  {
    var s := "Chapter 12";
    assert s == "Chapter" + " " + "12" + "";
    assert AllWhiteSpace(" ");
    ChapterMatchAtShape(" ", "12", "");
    ChapterCaptureAt(s, 0);
  }

  /** Matching is case-sensitive. */
  lemma ChapterMatchIsCaseSensitive()
    ensures ChapterMatchAt("chapter 3", 0) == None
  {
    assert "chapter 3"[0..7][0] != "Chapter"[0];
  }

  /** Matching needs white space after the word. */
  lemma ChapterMatchNeedsSpace()
    ensures ChapterMatchAt("Chapter3", 0) == None
  {
    var s := "Chapter3";
    assert s[0..7] == "Chapter";
    assert !IsWhiteSpace(s[7]);
    SkipWhiteAt(s, 7, 7);
  }
}
