/**
 * Concrete results of a multi-pass split, from `begin()` to `end()`.
 */
module SplitExamples {
  import opened SplitSpec

  /** A position whose element differs from the pattern's first one is no match. */
  lemma NoMatchAt<T>(s: seq<T>, p: seq<T>, k: nat)
    requires k < |s| && 0 < |p| && s[k] != p[0]
    ensures !MatchesAt(s, p, k)
  {
    if k + |p| <= |s| {
      assert s[k..k + |p|][0] == s[k];
    }
  }

  /** Delimiters between, and twice in a row, give an empty segment in the middle. */
  lemma SplitCommas()
    ensures Split("a,b,,c", ",") == ["a", "b", "", "c"]
  {
    var s, p := "a,b,,c", ",";
    NoMatchAt(s, p, 0);
    NoMatchAt(s, p, 2);
    NoMatchAt(s, p, 5);
    SegmentsNoMatch(s, p, 5);
    SegmentsAtMatch(s, p, 4, 4);
    SegmentsAtMatch(s, p, 2, 3);
    SegmentsAtMatch(s, p, 0, 1);
    assert s[0..1] == "a" && s[2..3] == "b" && s[4..4] == "" && s[5..] == "c";
  }

  /** A trailing delimiter gives no trailing empty segment. */
  lemma SplitTrailingDelimiter()
    ensures Split("a,b,", ",") == ["a", "b"]
  {
    var s, p := "a,b,", ",";
    NoMatchAt(s, p, 0);
    NoMatchAt(s, p, 2);
    SegmentsAtMatch(s, p, 2, 3);
    SegmentsAtMatch(s, p, 0, 1);
    assert s[0..1] == "a" && s[2..3] == "b";
  }

  /** An empty source gives no segment at all: `begin()` already equals `end()`. */
  lemma SplitEmptySource()
    ensures Split("", ",") == []
  {
  }

  /** An empty pattern cuts the source into its single elements. */
  lemma SplitEmptyPattern()
    ensures Split("abc", "") == ["a", "b", "c"]
  {
    EmptyPatternSegments("abc", 0);
  }

  /** After the second delimiter of `d x d y d d z`: `y`, an empty segment, `z`. */
  lemma SegmentsLeadingTail<T>(s: seq<T>, d: T)
    requires |s| == 7 && s[4] == d && s[5] == d
    requires s[3] != d && s[6] != d
    ensures Segments(s, [d], 3) == [[s[3]], [], [s[6]]]
  {
    var p := [d];
    NoMatchAt(s, p, 3);
    NoMatchAt(s, p, 6);
    SegmentsNoMatch(s, p, 6);
    SegmentsAtMatch(s, p, 5, 5);
    SegmentsAtMatch(s, p, 3, 4);
    assert s[3..4] == [s[3]] && s[5..5] == [] && s[6..] == [s[6]];
  }

  /**
   * A source of the shape `d x d y d d z` split on `d`: a leading empty
   * segment, `x`, `y`, an empty segment between the doubled delimiter, `z`.
   */
  lemma SplitLeadingShape<T>(s: seq<T>, d: T)
    requires |s| == 7 && s[0] == d && s[2] == d && s[4] == d && s[5] == d
    requires s[1] != d && s[3] != d && s[6] != d
    ensures Split(s, [d]) == [[], [s[1]], [s[3]], [], [s[6]]]
  {
    var p := [d];
    SegmentsLeadingTail(s, d);
    NoMatchAt(s, p, 1);
    SegmentsAtMatch(s, p, 1, 2);
    SegmentsAtMatch(s, p, 0, 0);
    assert s[0..0] == [] && s[1..2] == [s[1]];
  }

  /** A leading delimiter gives a leading empty segment. */
  lemma SplitLeadingDelimiter()
    ensures Split("XaXbXXc", "X") == ["", "a", "b", "", "c"]
  {
    SplitLeadingShape("XaXbXXc", 'X');
  }

  /** A two-element pattern; a partial match cut off by the end is no match. */
  lemma SplitLongPattern()
    ensures Split("ab--cd-", "--") == ["ab", "cd-"]
  {
    var s, p := "ab--cd-", "--";
    NoMatchAt(s, p, 0);
    NoMatchAt(s, p, 1);
    NoMatchAt(s, p, 4);
    NoMatchAt(s, p, 5);
    SegmentsNoMatch(s, p, 4);
    SegmentsAtMatch(s, p, 0, 2);
    assert s[0..2] == "ab" && s[4..] == "cd-";
  }
}
