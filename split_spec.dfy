/**
 * A value-level specification of the lazy split view: the source and the
 * pattern are sequences, every cursor is an index `0..|src|`, and the
 * behaviour of each iterator step is a function of those values.
 *
 * `forward` distinguishes a multi-pass (forward) source, whose outer
 * iterators each keep their own cursor, from a single-pass (input) source,
 * whose outer iterators all share one cursor stored on the view.
 */
module SplitSpec {
  import opened Algorithms

  /** The whole pattern occurs in the source starting at position `k`. */
  predicate MatchesAt<T(==)>(src: seq<T>, pat: seq<T>, k: nat)
  {
    k + |pat| <= |src| && src[k..k + |pat|] == pat
  }

  /**
   * The position of the leftmost full pattern occurrence that starts at or
   * after `k` and before the end of the source, or `|src|` if there is none.
   * A match cut off by the end of the source is no match.
   */
  function FindFrom<T(==)>(src: seq<T>, pat: seq<T>, k: nat): (r: nat)
    requires k <= |src|
    ensures k <= r <= |src|
    ensures r < |src| ==> MatchesAt(src, pat, r)
    ensures forall j :: k <= j < r ==> !MatchesAt(src, pat, j)
    decreases |src| - k
  {
    if k == |src| then k
    else if MatchesAt(src, pat, k) then k
    else FindFrom(src, pat, k + 1)
  }

  /** The scan from `c` stops at the first full match at or after `c`. */
  lemma FindFromLeftmost<T>(src: seq<T>, pat: seq<T>, c: nat, k: nat)
    requires c <= k < |src| && MatchesAt(src, pat, k)
    requires forall j :: c <= j < k ==> !MatchesAt(src, pat, j)
    ensures FindFrom(src, pat, c) == k
  {
  }

  /**
   * Where outer `operator++` leaves the cursor `c`. At the end nothing
   * moves. Otherwise the scan stops at the leftmost match `k` and the
   * cursor goes just past it; a forward source additionally steps one
   * element past a zero-length match, a single-pass source does not.
   * Without a match the cursor goes to the end.
   */
  function NextOuter<T(==)>(src: seq<T>, pat: seq<T>, forward: bool, c: nat): (r: nat)
    requires c <= |src|
    ensures c <= r <= |src|
    ensures c == |src| ==> r == c
    ensures c < |src| && |pat| == 0 ==> r == if forward then c + 1 else c
    ensures forward && c < |src| ==> c < r
  {
    if c == |src| then c
    else
      var k := FindFrom(src, pat, c);
      if k == |src| then |src|
      else if forward then NextBounded(k + |pat|, if |pat| == 0 then 1 else 0, |src|)
      else k + |pat|
  }

  /** With a non-empty pattern, an advance lands just past the leftmost match at or after `c`. */
  lemma NextOuterLeftmost<T>(src: seq<T>, pat: seq<T>, forward: bool, c: nat, k: nat)
    requires 0 < |pat| && c <= k < |src| && MatchesAt(src, pat, k)
    requires forall j :: c <= j < k ==> !MatchesAt(src, pat, j)
    ensures NextOuter(src, pat, forward, c) == k + |pat|
  {
  }

  /** Without a full match at or after `c`, an advance goes to the end of the source. */
  lemma NextOuterNoMatch<T>(src: seq<T>, pat: seq<T>, forward: bool, c: nat)
    requires c <= |src|
    requires forall j :: c <= j < |src| ==> !MatchesAt(src, pat, j)
    ensures NextOuter(src, pat, forward, c) == |src|
  {
  }

  /**
   * The two modes advance alike from a cursor before the end exactly when
   * the pattern is non-empty.
   */
  lemma ModesDifferOnlyOnEmptyPattern<T>(src: seq<T>, pat: seq<T>, c: nat)
    requires c < |src|
    ensures NextOuter(src, pat, true, c) == NextOuter(src, pat, false, c) <==> 0 < |pat|
  {
    if 0 < |pat| {
      var k := FindFrom(src, pat, c);
      if k < |src| {
        assert NextBounded(k + |pat|, 0, |src|) == k + |pat|;
      }
    }
  }

  /**
   * The do-while loop of the inner sentinel test: with `pcur` already
   * inside the pattern, do the remaining pattern elements follow in the
   * source from `cur`?
   */
  function PatternFollows<T(==)>(src: seq<T>, cur: nat, pat: seq<T>, pcur: nat): (r: bool)
    requires cur < |src| && pcur < |pat|
    ensures r <==> cur + (|pat| - pcur) <= |src| && src[cur..cur + (|pat| - pcur)] == pat[pcur..]
    decreases |pat| - pcur
  {
    if src[cur] != pat[pcur] then false
    else if pcur + 1 == |pat| then true
    else if cur + 1 == |src| then false
    else
      var n := |pat| - pcur;
      assert cur + n <= |src| ==> src[cur..cur + n] == [src[cur]] + src[cur + 1..cur + n];
      assert pat[pcur..] == [pat[pcur]] + pat[pcur + 1..];
      PatternFollows(src, cur + 1, pat, pcur + 1)
  }

  /**
   * The inner sentinel test: a segment is over at the end of the source,
   * or where the whole pattern starts; with an empty pattern, only once
   * the inner iterator has been advanced (`zero`).
   */
  function AtSegmentEnd<T(==)>(src: seq<T>, pat: seq<T>, cur: nat, zero: bool): (r: bool)
    requires cur <= |src|
    ensures r <==> cur == |src| || (if |pat| == 0 then zero else MatchesAt(src, pat, cur))
  {
    if cur == |src| then true
    else if |pat| == 0 then zero
    else
      assert pat[0..] == pat;
      PatternFollows(src, cur, pat, 0)
  }

  /**
   * The elements an inner traversal yields from cursor `cur`: dereference,
   * advance (setting `zero`), until the inner sentinel test holds.
   */
  function SegmentFrom<T(==)>(src: seq<T>, pat: seq<T>, cur: nat, zero: bool): (r: seq<T>)
    requires cur <= |src|
    ensures cur + |r| <= |src| && r == src[cur..cur + |r|]
    decreases |src| - cur
  {
    if AtSegmentEnd(src, pat, cur, zero) then []
    else [src[cur]] + SegmentFrom(src, pat, cur + 1, true)
  }

  /**
   * One inner step: what has been read so far, followed by the element at
   * the cursor, followed by the rest of the segment after an advance, is
   * the whole segment.
   */
  lemma SegmentFromStep<T>(src: seq<T>, pat: seq<T>, cur: nat, zero: bool, read: seq<T>, whole: seq<T>)
    requires cur < |src| && !AtSegmentEnd(src, pat, cur, zero)
    requires read + SegmentFrom(src, pat, cur, zero) == whole
    ensures (read + [src[cur]]) + SegmentFrom(src, pat, cur + 1, true) == whole
  {
    var rest := SegmentFrom(src, pat, cur + 1, true);
    assert SegmentFrom(src, pat, cur, zero) == [src[cur]] + rest;
    assert (read + [src[cur]]) + rest == read + ([src[cur]] + rest);
  }

  /** With a non-empty pattern, a segment runs from its cursor up to the next match (or the end). */
  lemma {:induction false} SegmentEndsAtMatch<T>(src: seq<T>, pat: seq<T>, cur: nat, zero: bool)
    requires 0 < |pat| && cur <= |src|
    ensures SegmentFrom(src, pat, cur, zero) == src[cur..FindFrom(src, pat, cur)]
    decreases |src| - cur
  {
    if cur < |src| && !MatchesAt(src, pat, cur) {
      SegmentEndsAtMatch(src, pat, cur + 1, true);
      assert FindFrom(src, pat, cur) == FindFrom(src, pat, cur + 1);
      var k := FindFrom(src, pat, cur);
      assert src[cur..k] == [src[cur]] + src[cur + 1..k];
    }
  }

  /** With an empty pattern, a fresh segment holds exactly one element. */
  lemma EmptyPatternSegment<T>(src: seq<T>, cur: nat)
    requires cur < |src|
    ensures SegmentFrom(src, [], cur, false) == [src[cur]]
  {
    assert !AtSegmentEnd(src, [], cur, false);
    assert AtSegmentEnd(src, [], cur + 1, true);
  }

  /**
   * Multi-pass outer traversal from cursor `c` up to the end sentinel:
   * the segment at each outer position, then advance.
   */
  function Segments<T(==)>(src: seq<T>, pat: seq<T>, c: nat): (r: seq<seq<T>>)
    requires c <= |src|
    ensures |r| <= |src| - c
    decreases |src| - c
  {
    if c == |src| then []
    else [SegmentFrom(src, pat, c, false)] + Segments(src, pat, NextOuter(src, pat, true, c))
  }

  /**
   * One outer step with a non-empty pattern: the segment at `c` runs up to
   * the leftmost match `k`, and the traversal resumes just past it.
   */
  lemma SegmentsAtMatch<T>(src: seq<T>, pat: seq<T>, c: nat, k: nat)
    requires 0 < |pat| && c <= k < |src| && MatchesAt(src, pat, k)
    requires forall j :: c <= j < k ==> !MatchesAt(src, pat, j)
    ensures Segments(src, pat, c) == [src[c..k]] + Segments(src, pat, k + |pat|)
  {
    var seg := SegmentFrom(src, pat, c, false);
    var next := NextOuter(src, pat, true, c);
    assert seg == src[c..k] by {
      SegmentEndsAtMatch(src, pat, c, false);
      FindFromLeftmost(src, pat, c, k);
    }
    assert next == k + |pat| by {
      NextOuterLeftmost(src, pat, true, c, k);
    }
    assert Segments(src, pat, c) == [seg] + Segments(src, pat, next);
  }

  /**
   * The last outer step with a non-empty pattern: with no match from `c`
   * on, the rest of the source is one final segment.
   */
  lemma SegmentsNoMatch<T>(src: seq<T>, pat: seq<T>, c: nat)
    requires 0 < |pat| && c < |src|
    requires forall j :: c <= j < |src| ==> !MatchesAt(src, pat, j)
    ensures Segments(src, pat, c) == [src[c..]]
  {
    SegmentEndsAtMatch(src, pat, c, false);
    NextOuterNoMatch(src, pat, true, c);
    var seg := SegmentFrom(src, pat, c, false);
    assert seg == src[c..FindFrom(src, pat, c)] == src[c..];
    assert Segments(src, pat, c) == [seg] + Segments(src, pat, |src|);
  }

  /** The segments a multi-pass split view produces, from `begin()` to `end()`. */
  function Split<T(==)>(src: seq<T>, pat: seq<T>): (r: seq<seq<T>>)
    ensures |r| <= |src|
    ensures src == [] ==> r == []
  {
    Segments(src, pat, 0)
  }

  /** Each segment followed by one copy of the pattern. */
  function Rebuild<T>(segs: seq<seq<T>>, pat: seq<T>): (r: seq<T>)
  {
    if segs == [] then [] else segs[0] + pat + Rebuild(segs[1..], pat)
  }

  /**
   * With a non-empty pattern the segments, with the pattern put back after
   * each of them, give back the source from `c` on, plus at most one
   * copy of the pattern: the one after the last segment when the source
   * does not end with a delimiter.
   */
  lemma {:induction false} SegmentsRebuild<T>(src: seq<T>, pat: seq<T>, c: nat)
    requires 0 < |pat| && c <= |src|
    ensures Rebuild(Segments(src, pat, c), pat) == src[c..]
         || Rebuild(Segments(src, pat, c), pat) == src[c..] + pat
    decreases |src| - c
  {
    if c < |src| {
      var k := FindFrom(src, pat, c);
      var next := NextOuter(src, pat, true, c);
      var rest := Rebuild(Segments(src, pat, next), pat);
      RebuildStep(src, pat, c);
      if k < |src| {
        SegmentsRebuild(src, pat, next);
      }
      RebuildJoin(src, pat, c, k, next, rest, Rebuild(Segments(src, pat, c), pat));
    }
  }

  /**
   * The step of `SegmentsRebuild` on plain sequences: a segment up to the
   * cut `k`, the pattern, and the rebuilt rest from `next` give back the
   * source from `c`, give or take one trailing pattern.
   */
  lemma RebuildJoin<T>(src: seq<T>, pat: seq<T>, c: nat, k: nat, next: nat, rest: seq<T>, whole: seq<T>)
    requires c <= k <= next <= |src|
    requires whole == src[c..k] + pat + rest
    requires k == |src| ==> rest == []
    requires k < |src| ==> src[k..next] == pat && (rest == src[next..] || rest == src[next..] + pat)
    ensures whole == src[c..] || whole == src[c..] + pat
  {
    if k == |src| {
      assert src[c..k] == src[c..];
      assert whole == src[c..] + pat;
    } else {
      var tail := src[next..];
      SliceConcat(src, c, k, next);
      assert src[c..] == src[c..k] + pat + tail;
      if rest != tail {
        assert whole == (src[c..k] + pat + tail) + pat;
      }
    }
  }

  /** Three adjacent slices of a sequence make up the slice from the first cut on. */
  lemma SliceConcat<T>(s: seq<T>, a: nat, b: nat, d: nat)
    requires a <= b <= d <= |s|
    ensures s[a..] == s[a..b] + s[b..d] + s[d..]
  {
  }

  /** One step of the outer traversal, as seen by Rebuild. */
  lemma RebuildStep<T>(src: seq<T>, pat: seq<T>, c: nat)
    requires 0 < |pat| && c < |src|
    ensures Rebuild(Segments(src, pat, c), pat)
         == src[c..FindFrom(src, pat, c)] + pat
            + Rebuild(Segments(src, pat, NextOuter(src, pat, true, c)), pat)
  {
    var segs := Segments(src, pat, c);
    SegmentEndsAtMatch(src, pat, c, false);
    assert segs[0] == src[c..FindFrom(src, pat, c)];
    assert segs[1..] == Segments(src, pat, NextOuter(src, pat, true, c));
  }

  /** With an empty pattern every element of the source is a segment of its own. */
  lemma {:induction false} EmptyPatternSegments<T>(src: seq<T>, c: nat)
    requires c <= |src|
    ensures |Segments(src, [], c)| == |src| - c
    ensures forall i :: 0 <= i < |src| - c ==> Segments(src, [], c)[i] == [src[c + i]]
    decreases |src| - c
  {
    if c < |src| {
      EmptyPatternSegment(src, c);
      EmptyPatternSegments(src, c + 1);
    }
  }

  /**
   * A single-pass view reaches the same cut as a multi-pass one: once an
   * inner traversal has consumed the segment at `c` (moving the shared
   * cursor to its end), the single-pass outer advance lands where the
   * multi-pass advance from `c` does. This is what the admission rule
   * (pattern length at most one) buys.
   */
  lemma SinglePassAfterConsumeAgrees<T>(src: seq<T>, pat: seq<T>, c: nat)
    requires |pat| <= 1 && c < |src|
    ensures c + |SegmentFrom(src, pat, c, false)| <= |src|
    ensures NextOuter(src, pat, false, c + |SegmentFrom(src, pat, c, false)|)
         == NextOuter(src, pat, true, c)
  {
    if |pat| == 0 {
      EmptyPatternSegment(src, c);
    } else {
      SegmentEndsAtMatch(src, pat, c, false);
      var k := FindFrom(src, pat, c);
      assert |SegmentFrom(src, pat, c, false)| == k - c;
      if k < |src| {
        assert FindFrom(src, pat, k) == k;
        assert NextBounded(k + |pat|, 0, |src|) == k + |pat|;
      }
    }
  }

  /**
   * One outer step of a single-pass view, in terms of the multi-pass
   * traversal: the segment read at `c` is the first multi-pass segment from
   * `c`, and advancing from where the reading left the shared cursor
   * (`read`) moves past `c` and resumes the multi-pass traversal.
   */
  lemma SinglePassStep<T>(src: seq<T>, pat: seq<T>, c: nat, s: seq<T>, read: nat)
    requires |pat| <= 1 && c < |src| && s == SegmentFrom(src, pat, c, false)
    requires read == c + |s|
    ensures read <= |src|
    ensures c < NextOuter(src, pat, false, read)
    ensures Segments(src, pat, c) == [s] + Segments(src, pat, NextOuter(src, pat, false, read))
  {
    var next := NextOuter(src, pat, true, c);
    assert read <= |src| && NextOuter(src, pat, false, read) == next by {
      SinglePassAfterConsumeAgrees(src, pat, c);
    }
    assert Segments(src, pat, c) == [s] + Segments(src, pat, next);
  }
}
