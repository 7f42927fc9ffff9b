/**
 * The split view and its iterators over the heap: the view is an object,
 * outer and inner iterators are values that point at it. A forward source
 * gives every outer iterator its own cursor; a single-pass source keeps
 * one cursor on the view, which every outer iterator (and every copy of
 * one) reads and moves.
 */
module SplitIterators {
  import opened Algorithms
  import opened SplitSpec

  /** `split_view<Rng, Pattern>`, with the source's traversal category as the flag `forward`. */
  class SplitView<T(==)> {
    const base: seq<T>
    const pattern: seq<T>
    /** The source is a forward (multi-pass) range. */
    const forward: bool
    /** The shared cursor of a single-pass view; unused when `forward`. */
    var current: nat

    /** The admission rule, and the shared cursor lies within the source. */
    ghost predicate Valid()
      reads this
    {
      (forward || |pattern| <= 1) && current <= |base|
    }

    /**
   * Value-initialised view, modelled with an empty source and an empty
   * pattern (a pattern whose size is fixed by its type is not modelled).
   */
    constructor Default(forward: bool)
      ensures Valid() && this.forward == forward
      ensures base == [] && pattern == []
    {
      this.base, this.pattern, this.forward := [], [], forward;
      current := 0;
    }

    /** Construct from a source and a pattern; a single-pass source needs a pattern of length at most one. */
    constructor (base: seq<T>, pattern: seq<T>, forward: bool)
      requires forward || |pattern| <= 1
      ensures Valid() && this.base == base && this.pattern == pattern && this.forward == forward
    {
      this.base, this.pattern, this.forward := base, pattern, forward;
      current := 0;
    }

    /** Construct from a source and one delimiter element: the pattern is that element alone. */
    constructor Single(base: seq<T>, e: T, forward: bool)
      ensures Valid() && this.base == base && pattern == [e] && this.forward == forward
    {
      this.base, this.pattern, this.forward := base, [e], forward;
      current := 0;
    }

    /**
     * `begin()`: a forward view hands out an iterator at the source start;
     * a single-pass view first resets its shared cursor to the start.
     */
    method Begin() returns (it: OuterIterator<T>)
      requires Valid()
      modifies if forward then {} else {this}
      ensures Valid() && OuterValid(it) && it.parent == this
      ensures Cursor(it) == 0
      ensures !forward ==> current == 0
    {
      if forward {
        it := ForwardOuter(this, 0);
      } else {
        current := 0;
        it := InputOuter(this);
      }
    }
  }

  /**
   * `__outer_iterator`: a forward one carries its own cursor, a single-pass
   * one only the view it reads the cursor from.
   */
  datatype OuterIterator<T(==)> =
    | ForwardOuter(parent: SplitView<T>, cur: nat)
    | InputOuter(parent: SplitView<T>)

  /** `current()`: the iterator's own cursor, or the view's shared one. */
  function Cursor<T(==)>(it: OuterIterator<T>): (c: nat)
    reads it.parent
    ensures it.ForwardOuter? ==> c == it.cur
    ensures it.InputOuter? ==> c == it.parent.current
  {
    match it
    case ForwardOuter(_, c) => c
    case InputOuter(v) => v.current
  }

  /** The iterator's kind fits its view, and its cursor lies within the source. */
  ghost predicate OuterValid<T>(it: OuterIterator<T>)
    reads it.parent
  {
    it.parent.Valid() && it.ForwardOuter? == it.parent.forward && Cursor(it) <= |it.parent.base|
  }

  /** Set the cursor `it` refers to: a new value for a forward iterator, the view's field otherwise. */
  method Store<T(==)>(it: OuterIterator<T>, c: nat) returns (r: OuterIterator<T>)
    requires OuterValid(it) && c <= |it.parent.base|
    modifies if it.parent.forward then {} else {it.parent}
    ensures OuterValid(r) && r.parent == it.parent && Cursor(r) == c
    ensures !it.parent.forward ==> r == it
  {
    if it.ForwardOuter? {
      r := ForwardOuter(it.parent, c);
    } else {
      it.parent.current := c;
      r := it;
    }
  }

  /**
   * Prefix `operator++` of the outer iterator: from a cursor before the
   * end, scan for the pattern with `mismatch` and stop just past the first
   * full match (a forward source steps one further over an empty match),
   * or at the end. The returned value is the updated iterator.
   */
  method Increment<T(==)>(it: OuterIterator<T>) returns (r: OuterIterator<T>)
    requires OuterValid(it)
    modifies if it.parent.forward then {} else {it.parent}
    ensures OuterValid(r) && r.parent == it.parent
    ensures Cursor(r) == NextOuter(it.parent.base, it.parent.pattern, it.parent.forward, old(Cursor(it)))
    ensures !it.parent.forward ==> r == it
    ensures !it.parent.forward ==>
      forall o: OuterIterator<T> :: o.parent == it.parent && o.InputOuter? ==> Cursor(o) == Cursor(r)
  {
    var v := it.parent;
    var cur := Cursor(it);
    var end := |v.base|;
    if cur == end {
      return it;
    }
    ghost var c0 := cur;
    while cur != end
      invariant c0 <= cur <= end
      invariant forall j :: c0 <= j < cur ==> !MatchesAt(v.base, v.pattern, j)
      invariant OuterValid(it) && Cursor(it) == c0
      decreases end - cur
    {
      var b, p := Mismatch(v.base, cur, v.pattern, 0);
      if p == |v.pattern| {
        // the pattern matched: skip it
        assert v.pattern[0..p] == v.pattern;
        assert MatchesAt(v.base, v.pattern, cur);
        cur := if v.forward then NextBounded(b, if |v.pattern| == 0 then 1 else 0, end) else b;
        r := Store(it, cur);
        return;
      }
      cur := cur + 1;
    }
    r := Store(it, cur);
  }

  /**
   * Postfix `operator++` of a forward outer iterator, as written: it
   * advances and then returns the advanced iterator, not the copy taken
   * before the advance.
   */
  method PostIncrement<T(==)>(it: OuterIterator<T>) returns (self: OuterIterator<T>, ret: OuterIterator<T>)
    requires OuterValid(it) && it.parent.forward
    ensures OuterValid(self) && self.parent == it.parent
    ensures Cursor(self) == NextOuter(it.parent.base, it.parent.pattern, true, Cursor(it))
    ensures ret == self
    ensures Cursor(it) < |it.parent.base| ==> Cursor(ret) != Cursor(it)
  {
    var tmp := it;
    self := Increment(it);
    ret := self;
  }

  /** Postfix `operator++` of a forward outer iterator with the copy returned, as the standard has it. */
  method PostIncrementCorrected<T(==)>(it: OuterIterator<T>) returns (self: OuterIterator<T>, ret: OuterIterator<T>)
    requires OuterValid(it) && it.parent.forward
    ensures OuterValid(self) && self.parent == it.parent
    ensures Cursor(self) == NextOuter(it.parent.base, it.parent.pattern, true, Cursor(it))
    ensures ret == it
  {
    var tmp := it;
    self := Increment(it);
    ret := tmp;
  }

  /** `==` between forward outer iterators: they stand at the same cursor. */
  function OuterEqual<T(==)>(x: OuterIterator<T>, y: OuterIterator<T>): (r: bool)
    requires x.ForwardOuter? && y.ForwardOuter?
    reads x.parent, y.parent
    ensures r <==> Cursor(x) == Cursor(y)
  {
    x.cur == y.cur
  }

  /** `__outer_sentinel`: the end position of the source, taken when the sentinel is made. */
  datatype OuterSentinel = OuterSentinel(end: nat)

  /** `end()` returning a sentinel. */
  function EndSentinel<T(==)>(v: SplitView<T>): (s: OuterSentinel)
    ensures s.end == |v.base|
  {
    OuterSentinel(|v.base|)
  }

  /** `end()` of a forward (and so bounded) view: an outer iterator at the source end. */
  function EndIterator<T(==)>(v: SplitView<T>): (it: OuterIterator<T>)
    requires v.Valid() && v.forward
    reads v
    ensures OuterValid(it) && it.parent == v && Cursor(it) == |v.base|
  {
    ForwardOuter(v, |v.base|)
  }

  /** `==` between an outer iterator and the sentinel. */
  function AtEnd<T(==)>(x: OuterIterator<T>, s: OuterSentinel): (r: bool)
    reads x.parent
    ensures r <==> Cursor(x) == s.end
  {
    Cursor(x) == s.end
  }

  /**
   * Both ways of writing `end()` agree: a forward outer iterator equals
   * the end iterator exactly when it equals the sentinel, which is exactly
   * when its cursor has reached the end of the source.
   */
  lemma EndFormsAgree<T>(x: OuterIterator<T>)
    requires OuterValid(x) && x.parent.forward
    ensures OuterEqual(x, EndIterator(x.parent)) <==> AtEnd(x, EndSentinel(x.parent))
    ensures AtEnd(x, EndSentinel(x.parent)) <==> Cursor(x) == |x.parent.base|
  {
  }

  /**
   * Outer iteration of a forward view ends: every advance from before the
   * end moves the cursor forward, so `|base|` advances from `begin()`
   * reach `end()`.
   */
  lemma OuterProgress<T>(x: OuterIterator<T>)
    requires OuterValid(x) && x.parent.forward && !AtEnd(x, EndSentinel(x.parent))
    ensures Cursor(x) < NextOuter(x.parent.base, x.parent.pattern, true, Cursor(x)) <= |x.parent.base|
  {
  }

  /** `__outer_iterator::value_type`: the segment at an outer position. */
  datatype OuterValue<T(==)> = OuterValue(i: OuterIterator<T>)

  /** `__inner_iterator`: a copy of the outer iterator and whether it has been advanced. */
  datatype InnerIterator<T(==)> = InnerIterator(i: OuterIterator<T>, zero: bool)

  /** `__inner_sentinel`: carries nothing; the end test reads the iterator. */
  datatype InnerSentinel = InnerSentinel

  /** Outer `operator*`: the segment at the iterator's position. */
  function Deref<T(==)>(it: OuterIterator<T>): (r: OuterValue<T>)
    ensures r.i == it
  {
    OuterValue(it)
  }

  /** `value_type::begin()`: an inner iterator at the segment's start, not yet advanced. */
  function ValueBegin<T(==)>(v: OuterValue<T>): (r: InnerIterator<T>)
    ensures r.i == v.i && !r.zero
  {
    InnerIterator(v.i, false)
  }

  /**
   * `value_type::end()`. The sentinel type has a single value, so the
   * ensures only records the result's shape.
   */
  function ValueEnd<T(==)>(v: OuterValue<T>): (r: InnerSentinel)
    ensures r == InnerSentinel
  {
    InnerSentinel
  }

  /** Inner `operator*`: the source element at the cursor. */
  function InnerDeref<T(==)>(x: InnerIterator<T>): (r: T)
    requires OuterValid(x.i) && Cursor(x.i) < |x.i.parent.base|
    reads x.i.parent
    ensures r == x.i.parent.base[Cursor(x.i)]
  {
    x.i.parent.base[Cursor(x.i)]
  }

  /**
   * Inner `operator++`: advance the cursor the copy refers to by one and
   * set `zero`. For a single-pass view that cursor is the view's own, so
   * every outer iterator of the view moves with it.
   */
  method InnerIncrement<T(==)>(x: InnerIterator<T>) returns (r: InnerIterator<T>)
    requires OuterValid(x.i) && Cursor(x.i) < |x.i.parent.base|
    modifies if x.i.parent.forward then {} else {x.i.parent}
    ensures OuterValid(r.i) && r.i.parent == x.i.parent && r.zero
    ensures Cursor(r.i) == old(Cursor(x.i)) + 1
    ensures !x.i.parent.forward ==> r.i == x.i
    ensures !x.i.parent.forward ==>
      forall o: OuterIterator<T> :: o.parent == x.i.parent && o.InputOuter? ==> Cursor(o) == Cursor(r.i)
  {
    var o := Store(x.i, Cursor(x.i) + 1);
    r := InnerIterator(o, true);
  }

  /** Postfix inner `operator++` on a forward view: advances, returns the copy from before. */
  method InnerPostIncrement<T(==)>(x: InnerIterator<T>) returns (self: InnerIterator<T>, ret: InnerIterator<T>)
    requires OuterValid(x.i) && x.i.parent.forward && Cursor(x.i) < |x.i.parent.base|
    ensures OuterValid(self.i) && self.i.parent == x.i.parent && self.zero
    ensures Cursor(self.i) == Cursor(x.i) + 1
    ensures ret == x
  {
    var tmp := x;
    self := InnerIncrement(x);
    ret := tmp;
  }

  /** `==` between forward inner iterators: same cursor, whatever `zero` says. */
  function InnerEqual<T(==)>(x: InnerIterator<T>, y: InnerIterator<T>): (r: bool)
    requires x.i.ForwardOuter? && y.i.ForwardOuter?
    reads x.i.parent, y.i.parent
    ensures r <==> Cursor(x.i) == Cursor(y.i)
  {
    x.i.cur == y.i.cur
  }

  /**
   * `==` between an inner iterator and the inner sentinel: the segment
   * is over at the end of the source or where the whole pattern starts;
   * with an empty pattern only after an advance.
   */
  function InnerAtEnd<T(==)>(x: InnerIterator<T>, s: InnerSentinel): (r: bool)
    requires OuterValid(x.i)
    reads x.i.parent
    ensures r <==> (Cursor(x.i) == |x.i.parent.base|
                    || if |x.i.parent.pattern| == 0 then x.zero
                       else MatchesAt(x.i.parent.base, x.i.parent.pattern, Cursor(x.i)))
  {
    AtSegmentEnd(x.i.parent.base, x.i.parent.pattern, Cursor(x.i), x.zero)
  }

  /**
   * Reading the segment at an outer position element by element (from
   * `value_type::begin()`, dereference, advance, until the inner sentinel)
   * yields a run of the source that starts at the outer cursor: the first
   * element is the one at the cursor, unless the segment is empty.
   */
  lemma SegmentStartsAtCursor<T>(it: OuterIterator<T>)
    requires OuterValid(it)
    ensures var x := ValueBegin(Deref(it));
            var seg := SegmentFrom(it.parent.base, it.parent.pattern, Cursor(it), false);
            (InnerAtEnd(x, InnerSentinel) <==> seg == [])
            && (seg != [] ==> seg[0] == InnerDeref(x))
  {
  }

  /**
   * One `*x++` of an inner iterator that is not at the inner sentinel: the
   * element read, appended to what was read before, continues the segment.
   */
  method ReadStep<T(==)>(x: InnerIterator<T>, s: seq<T>, ghost whole: seq<T>) returns (y: InnerIterator<T>, t: seq<T>)
    requires OuterValid(x.i) && !InnerAtEnd(x, InnerSentinel)
    requires s + SegmentFrom(x.i.parent.base, x.i.parent.pattern, Cursor(x.i), x.zero) == whole
    modifies if x.i.parent.forward then {} else {x.i.parent}
    ensures OuterValid(y.i) && y.i.parent == x.i.parent && Cursor(y.i) == old(Cursor(x.i)) + 1
    ensures !x.i.parent.forward ==> y.i == x.i
    ensures |t| == |s| + 1
    ensures t + SegmentFrom(x.i.parent.base, x.i.parent.pattern, Cursor(y.i), y.zero) == whole
  {
    SegmentFromStep(x.i.parent.base, x.i.parent.pattern, Cursor(x.i), x.zero, s, whole);
    t := s + [InnerDeref(x)];
    y := InnerIncrement(x);
  }

  /**
   * Read the segment at a forward outer position through the inner
   * iterator API: from `value_type::begin()`, dereference and advance
   * until the inner sentinel. The elements read are the segment; the
   * inner iterator works on its own copy, so nothing else moves.
   */
  method ReadSegment<T(==)>(it: OuterIterator<T>) returns (s: seq<T>)
    requires OuterValid(it) && it.parent.forward
    ensures s == SegmentFrom(it.parent.base, it.parent.pattern, Cursor(it), false)
  {
    ghost var whole := SegmentFrom(it.parent.base, it.parent.pattern, Cursor(it), false);
    var x := ValueBegin(Deref(it));
    s := [];
    while !InnerAtEnd(x, ValueEnd(Deref(it)))
      invariant OuterValid(x.i) && x.i.parent == it.parent
      invariant Cursor(x.i) <= |it.parent.base|
      invariant s + SegmentFrom(it.parent.base, it.parent.pattern, Cursor(x.i), x.zero) == whole
      decreases |it.parent.base| - Cursor(x.i)
    {
      x, s := ReadStep(x, s, whole);
    }
  }

  /**
   * Read the segment at a single-pass outer position the same way. The
   * inner iterator moves the view's shared cursor, so once the segment has
   * been read every outer iterator of the view stands at its end.
   */
  method ReadSegmentSinglePass<T(==)>(it: OuterIterator<T>) returns (s: seq<T>)
    requires OuterValid(it) && !it.parent.forward
    modifies it.parent
    ensures s == SegmentFrom(it.parent.base, it.parent.pattern, old(Cursor(it)), false)
    ensures OuterValid(it) && Cursor(it) == old(Cursor(it)) + |s|
  {
    ghost var c0 := Cursor(it);
    ghost var whole := SegmentFrom(it.parent.base, it.parent.pattern, c0, false);
    var x := ValueBegin(Deref(it));
    s := [];
    while !InnerAtEnd(x, ValueEnd(Deref(it)))
      invariant x.i == it && OuterValid(it)
      invariant Cursor(it) == c0 + |s|
      invariant s + SegmentFrom(it.parent.base, it.parent.pattern, Cursor(it), x.zero) == whole
      decreases |it.parent.base| - Cursor(it)
    {
      x, s := ReadStep(x, s, whole);
    }
  }

  /**
   * Drive a forward view: from `begin()`, read each segment through the
   * inner iterators and advance the outer iterator, until the end
   * sentinel. The segments read are the split of the source.
   */
  method ReadAll<T(==)>(v: SplitView<T>) returns (segs: seq<seq<T>>)
    requires v.Valid() && v.forward
    ensures segs == Split(v.base, v.pattern)
  {
    var it := v.Begin();
    segs := [];
    while !AtEnd(it, EndSentinel(v))
      invariant OuterValid(it) && it.parent == v
      invariant segs + Segments(v.base, v.pattern, Cursor(it)) == Split(v.base, v.pattern)
      decreases |v.base| - Cursor(it)
    {
      var s := ReadSegment(it);
      segs := segs + [s];
      it := Increment(it);
    }
  }

  /**
   * One round on a single-pass view: read the segment at the shared
   * cursor, then advance. If the segments read so far followed by the
   * multi-pass traversal from the old cursor make up `whole`, then so do
   * they, the segment just read and the traversal from the new cursor.
   */
  method ReadAndAdvance<T(==)>(it: OuterIterator<T>, ghost segs: seq<seq<T>>, ghost whole: seq<seq<T>>)
    returns (s: seq<T>)
    requires OuterValid(it) && !it.parent.forward && Cursor(it) < |it.parent.base|
    requires segs + Segments(it.parent.base, it.parent.pattern, Cursor(it)) == whole
    modifies it.parent
    ensures OuterValid(it) && old(Cursor(it)) < Cursor(it)
    ensures s == SegmentFrom(it.parent.base, it.parent.pattern, old(Cursor(it)), false)
    ensures Cursor(it) == NextOuter(it.parent.base, it.parent.pattern, false, old(Cursor(it)) + |s|)
    ensures (segs + [s]) + Segments(it.parent.base, it.parent.pattern, Cursor(it)) == whole
  {
    ghost var src, pat := it.parent.base, it.parent.pattern;
    ghost var c := Cursor(it);
    s := ReadSegmentSinglePass(it);
    ghost var read := Cursor(it);
    ghost var next := NextOuter(src, pat, false, read);
    assert c < next && (segs + [s]) + Segments(src, pat, next) == whole by {
      SinglePassStep(src, pat, c, s, read);
      assert (segs + [s]) + Segments(src, pat, next) == segs + ([s] + Segments(src, pat, next));
    }
    var r := Increment(it);
    assert Cursor(it) == next;
  }

  /**
   * Drive a single-pass view the same way. Reading a segment moves the
   * shared cursor to the segment's end before the outer advance, and from
   * there the advance lands where the multi-pass one does, so the segments
   * read are again the split of the source.
   */
  method ReadAllSinglePass<T(==)>(v: SplitView<T>) returns (segs: seq<seq<T>>)
    requires v.Valid() && !v.forward
    modifies v
    ensures segs == Split(v.base, v.pattern)
    ensures v.Valid() && v.current == |v.base|
  {
    ghost var whole := Split(v.base, v.pattern);
    var it := v.Begin();
    segs := [];
    while !AtEnd(it, EndSentinel(v))
      invariant OuterValid(it) && it == InputOuter(v)
      invariant segs + Segments(v.base, v.pattern, Cursor(it)) == whole
      decreases |v.base| - Cursor(it)
    {
      var s := ReadAndAdvance(it, segs, whole);
      segs := segs + [s];
    }
  }
}
