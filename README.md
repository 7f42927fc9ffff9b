# Split view and insertion cursors of cmcstl2, in Dafny

This project models two runtime pieces of cmcstl2, a concept-based draft of
the C++ ranges library:

- the lazy **split view** (`ext::split_view`), which walks a source range and
  cuts it into segments at each full occurrence of a pattern range, with its
  outer iterator, outer sentinel, segment value type, inner iterator and inner
  sentinel. This draft has no trailing-empty-segment flag; the model follows
  the draft;
- the **insertion cursors** behind `back_inserter`, `front_inserter` and
  `inserter`, which turn each write into a `push_back`, `push_front` or
  positional `insert` on a container they reference.

Ranges are Dafny sequences and iterators are indices into them (the length
is the end position). Element equality (`equal_to<>`) is Dafny `==`.

Files and modules:

- `algorithms.dfy`, module `Algorithms`: the four-argument `mismatch` (its
  header is not part of this model, so it is written here as the standard
  algorithm) and the bounded `next`.
- `split_spec.dfy`, module `SplitSpec`: the split view as functions of the
  source, the pattern and a cursor. `NextOuter` is what outer `++` does to a
  cursor, `AtSegmentEnd` is the inner sentinel test, `SegmentFrom` is the run
  of elements an inner traversal yields, and `Segments`/`Split` is the whole
  multi-pass traversal from `begin()` to `end()`. Lemmas characterise the
  advance (leftmost match, no match, empty pattern), bound the number of
  segments, rebuild the source from the segments, and show that a
  single-pass view cuts where a multi-pass one does.
- `split_examples.dfy`, module `SplitExamples`: concrete splits.
- `split_view.dfy`, module `SplitIterators`: the view as a class (`SplitView`, with
  the single-pass shared cursor `current` as a mutable field) and its
  iterators as values that point at it. Outer `++` is the do-while scan of
  the source, written as a loop over `Mismatch`, and is proved to leave the
  cursor at `NextOuter` of the old cursor. A forward source gives each outer
  iterator its own cursor (`ForwardOuter`); a single-pass source gives them
  only the view (`InputOuter`), so every copy reads and moves the one field.
  `ReadSegment` and `ReadAll` drive the iterator API end to end (inner
  `begin()`, `*`, `++` and the inner sentinel; outer `begin()`, `++` and the
  end sentinel) and are proved to yield `SegmentFrom` and `Split`; their
  single-pass versions yield the same split through the shared cursor.
- `insert_iterators.dfy`, module `InsertIterators`: a container class with
  the three insertion operations, the three cursor classes with their
  `Write`, the three factory functions, a loop per cursor that writes a
  sequence of values through it, and lemmas about what such a sequence of
  writes leaves in the container.

Two behaviours of the code are worth noting:

- an empty source gives no segment at all, because `begin()` already equals
  `end()` (split.hpp:77, 82 and 207-208);
- the extra one-element step after a zero-length match is taken only for a
  forward source (split.hpp:166-169); a single-pass source relies on the
  inner traversal having consumed the element (`SinglePassAfterConsumeAgrees`).

## Model

| member | source | states |
|---|---|---|
| Algorithms.Mismatch | include/stl2/view/split.hpp:163 | both positions advance together; the walked parts of the two ranges are equal; the walk stops at the end of either range or at the first differing pair |
| Algorithms.NextBounded | include/stl2/view/split.hpp:167 | advances by `n` but never past the bound |
| SplitSpec.FindFrom | include/stl2/view/split.hpp:161-172 | the scan of outer `++` stops at the leftmost full match at or after the cursor and before the end, or at the end; no earlier position matches; a match cut off by the end is not a match |
| SplitSpec.NextOuter | include/stl2/view/split.hpp:156-172 | at the end the cursor stays; with an empty pattern a forward advance moves exactly one element and a single-pass one does not move; a forward advance from before the end always moves forward |
| SplitSpec.NextOuterLeftmost | include/stl2/view/split.hpp:161-171 | with a non-empty pattern the advance lands just past the leftmost full match at or after the cursor |
| SplitSpec.NextOuterNoMatch | include/stl2/view/split.hpp:172 | without a full match the advance goes to the end of the source |
| SplitSpec.ModesDifferOnlyOnEmptyPattern | include/stl2/view/split.hpp:166-169 | forward and single-pass advances agree from any cursor before the end exactly when the pattern is non-empty |
| SplitSpec.PatternFollows | include/stl2/view/split.hpp:299-305 | the sentinel's do-while loop answers true exactly when the rest of the pattern occurs in full at the cursor |
| SplitSpec.AtSegmentEnd | include/stl2/view/split.hpp:292-305 | a segment ends at the source end or where the whole pattern starts; with an empty pattern only once the inner iterator has been advanced |
| SplitSpec.SegmentFrom | include/stl2/view/split.hpp:250-257 | an inner traversal yields a contiguous run of the source starting at the cursor |
| SplitSpec.SegmentEndsAtMatch | include/stl2/view/split.hpp:292-305 | with a non-empty pattern a segment is exactly the source from its cursor up to the next full match, or to the end |
| SplitSpec.EmptyPatternSegment | include/stl2/view/split.hpp:296-298 | with an empty pattern a segment is exactly one element |
| SplitSpec.Segments | include/stl2/view/split.hpp:158-172 | outer traversal from a cursor produces at most as many segments as elements remain |
| SplitSpec.SegmentsAtMatch | include/stl2/view/split.hpp:161-171 | one outer step: the segment runs to the leftmost match and the next starts past it |
| SplitSpec.SegmentsNoMatch | include/stl2/view/split.hpp:172 | without a further match the remaining source is the last segment |
| SplitSpec.Split | include/stl2/view/split.hpp:81-89 | a split of a source has at most as many segments as the source has elements, and an empty source has none |
| SplitSpec.SegmentsRebuild | include/stl2/view/split.hpp:156-172 | the segments with the pattern put back after each give back the source, plus at most one extra copy of the pattern at the end |
| SplitSpec.EmptyPatternSegments | include/stl2/view/split.hpp:163-167 | with an empty pattern every element is a segment of its own, in order |
| SplitSpec.SinglePassAfterConsumeAgrees | include/stl2/view/split.hpp:166-169 | once the inner traversal has consumed a segment, a single-pass advance lands where the multi-pass advance does, for any admitted pattern (length at most one) |
| SplitSpec.SinglePassStep | include/stl2/view/split.hpp:154-172 | one single-pass round (read the segment at `c`, then advance from where the reading stopped) moves past `c` and produces the first multi-pass segment from `c` followed by the multi-pass traversal from the new cursor |
| SplitExamples.SplitCommas | include/stl2/view/split.hpp:156-172 | `"a,b,,c"` split on `","` gives `"a"`, `"b"`, `""`, `"c"` |
| SplitExamples.SplitTrailingDelimiter | include/stl2/view/split.hpp:158 | a trailing delimiter gives no trailing empty segment |
| SplitExamples.SplitEmptySource | include/stl2/view/split.hpp:207-208 | an empty source gives no segment |
| SplitExamples.SplitEmptyPattern | include/stl2/view/split.hpp:163-167 | `"abc"` split on an empty pattern gives `"a"`, `"b"`, `"c"` |
| SplitExamples.SplitLeadingDelimiter | include/stl2/view/split.hpp:161-172 | `"XaXbXXc"` split on `"X"` gives `""`, `"a"`, `"b"`, `""`, `"c"`: a leading delimiter gives a leading empty segment |
| SplitExamples.SplitLongPattern | include/stl2/view/split.hpp:163-164 | a two-element pattern cuts once; a partial match at the end is not a cut |
| SplitIterators.SplitView.Default | include/stl2/view/split.hpp:54 | a default view, modelled with an empty source and an empty pattern, satisfies the admission rule |
| SplitIterators.SplitView.constructor | include/stl2/view/split.hpp:55-57 | the view records source and pattern; a single-pass source is admitted only with a pattern of length at most one |
| SplitIterators.SplitView.Single | include/stl2/view/split.hpp:67-73 | construction from one element makes the pattern that element alone |
| SplitIterators.SplitView.Begin | include/stl2/view/split.hpp:75-82 | `begin()` gives an outer iterator at the source start; a single-pass view resets its shared cursor to the start |
| SplitIterators.Cursor | include/stl2/view/split.hpp:128-133 | `current()` of a forward outer iterator is its own cursor; that of a single-pass one is the view's shared cursor, so every copy reads the same position |
| SplitIterators.Store | include/stl2/view/split.hpp:128-133 | writing through `current()` gives a forward iterator a new cursor and sets the view's shared cursor for a single-pass one, whose value (and every copy of it) then reads the new position |
| SplitIterators.Increment | include/stl2/view/split.hpp:154-174 | outer `++` leaves the cursor at `NextOuter` of the old one; a single-pass advance moves the view's cursor, so every outer iterator of the view sees the new position |
| SplitIterators.PostIncrement | include/stl2/view/split.hpp:177-182 | forward postfix `++` advances and returns the advanced iterator, which differs from the original whenever it was not at the end |
| SplitIterators.PostIncrementCorrected | include/stl2/view/split.hpp:177-182 | postfix `++` that returns the copy taken before the advance |
| SplitIterators.OuterEqual | include/stl2/view/split.hpp:184-192 | two forward outer iterators are equal exactly when their cursors are equal |
| SplitIterators.EndSentinel | include/stl2/view/split.hpp:204-205 | the sentinel records the end of the source |
| SplitIterators.EndIterator | include/stl2/view/split.hpp:95-96 | the end of a forward view is an outer iterator at the source end |
| SplitIterators.AtEnd | include/stl2/view/split.hpp:207-214 | an outer iterator equals the sentinel exactly when its cursor equals the recorded end |
| SplitIterators.EndFormsAgree | include/stl2/view/split.hpp:207-208 | comparing with the end iterator and with the sentinel agree, and both hold exactly at the source end |
| SplitIterators.OuterProgress | include/stl2/view/split.hpp:158-172 | every forward advance from before the end strictly increases the cursor and stays within the source |
| SplitIterators.Deref | include/stl2/view/split.hpp:151-152 | outer `*` gives the segment at the iterator's position |
| SplitIterators.ValueBegin | include/stl2/view/split.hpp:227-228 | a segment's `begin()` is an inner iterator at the outer position, not yet advanced |
| SplitIterators.ValueEnd | include/stl2/view/split.hpp:230-231 | a segment's `end()` is the inner sentinel |
| SplitIterators.InnerDeref | include/stl2/view/split.hpp:250-251 | inner `*` yields the source element at the cursor |
| SplitIterators.InnerIncrement | include/stl2/view/split.hpp:253-258 | inner `++` moves the cursor one element and sets `zero`; for a single-pass view it moves the shared cursor, so all outer iterators move with it |
| SplitIterators.InnerPostIncrement | include/stl2/view/split.hpp:263-268 | forward inner postfix `++` advances and returns the copy from before |
| SplitIterators.InnerEqual | include/stl2/view/split.hpp:270-275 | two forward inner iterators are equal exactly when their cursors are equal |
| SplitIterators.InnerAtEnd | include/stl2/view/split.hpp:289-306 | an inner iterator is at the sentinel at the source end, or where the whole pattern starts, or with an empty pattern once advanced |
| SplitIterators.SegmentStartsAtCursor | include/stl2/view/split.hpp:227-231 | the segment at an outer position is empty exactly when its begin is at the inner sentinel, and otherwise starts with the element at the cursor |
| SplitIterators.ReadStep | include/stl2/view/split.hpp:250-258 | one `*x++` on an inner iterator before the inner sentinel reads the next element of the segment and moves the cursor one place |
| SplitIterators.ReadSegment | include/stl2/view/split.hpp:227-306 | reading a forward segment from `value_type::begin()` with `*` and `++` until the inner sentinel yields exactly `SegmentFrom` at the outer cursor |
| SplitIterators.ReadSegmentSinglePass | include/stl2/view/split.hpp:227-306 | reading a single-pass segment the same way yields the same elements and leaves the shared cursor just past them |
| SplitIterators.ReadAndAdvance | include/stl2/view/split.hpp:151-174 | on a single-pass view, reading a segment and then `++` moves the shared cursor forward, to the single-pass advance from the end of the segment read, and continues the multi-pass traversal: the segments read so far plus the traversal from the new cursor are unchanged |
| SplitIterators.ReadAll | include/stl2/view/split.hpp:81-89 | driving a forward view from `begin()` to the end sentinel, reading every segment through the inner iterators, yields exactly `Split` of the source |
| SplitIterators.ReadAllSinglePass | include/stl2/view/split.hpp:75-89 | driving a single-pass view the same way yields the same segments as the multi-pass split, and leaves the view valid with its shared cursor at the source end |
| InsertIterators.InsertAt | include/stl2/detail/iterator/insert_iterators.hpp:133 | an insertion puts the value at the position, keeps everything before and after it, and grows the contents by one |
| InsertIterators.BackInsertCursor.Default | include/stl2/detail/iterator/insert_iterators.hpp:30 | a default cursor has no container |
| InsertIterators.BackInsertCursor.constructor | include/stl2/detail/iterator/insert_iterators.hpp:32-34 | construction from a container records it |
| InsertIterators.BackInsertCursor.Write | include/stl2/detail/iterator/insert_iterators.hpp:55-58 | the written value becomes the new last element, earlier elements unchanged; the cursor does not change |
| InsertIterators.FrontInsertCursor.Default | include/stl2/detail/iterator/insert_iterators.hpp:85 | a default cursor has no container |
| InsertIterators.FrontInsertCursor.constructor | include/stl2/detail/iterator/insert_iterators.hpp:86 | construction from a container records it |
| InsertIterators.FrontInsertCursor.Write | include/stl2/detail/iterator/insert_iterators.hpp:90-93 | the written value becomes the new first element, the rest shifted unchanged; the cursor does not change |
| InsertIterators.InsertCursor.Default | include/stl2/detail/iterator/insert_iterators.hpp:123 | a default cursor has no container |
| InsertIterators.InsertCursor.constructor | include/stl2/detail/iterator/insert_iterators.hpp:124-126 | construction records the container and a position within it |
| InsertIterators.InsertCursor.Write | include/stl2/detail/iterator/insert_iterators.hpp:131-135 | the value is inserted just before the stored position, which then moves just past it |
| InsertIterators.BackInserter | include/stl2/detail/iterator/insert_iterators.hpp:69-72 | `back_inserter(c)` gives a cursor on `c` |
| InsertIterators.FrontInserter | include/stl2/detail/iterator/insert_iterators.hpp:104-107 | `front_inserter(x)` gives a cursor on `x` |
| InsertIterators.Inserter | include/stl2/detail/iterator/insert_iterators.hpp:147-152 | `inserter(x, i)` gives a cursor on `x` at position `i` |
| InsertIterators.CopyBack | include/stl2/detail/iterator/insert_iterators.hpp:55-58 | writing `vs` one value at a time through a back cursor leaves the container as `BackWrites` of its old contents |
| InsertIterators.CopyFront | include/stl2/detail/iterator/insert_iterators.hpp:90-93 | writing `vs` one value at a time through a front cursor leaves the container as `FrontWrites` of its old contents |
| InsertIterators.CopyInsert | include/stl2/detail/iterator/insert_iterators.hpp:131-135 | writing `vs` one value at a time through an insert cursor leaves the container and the stored position as `InsertWrites` of the old ones |
| InsertIterators.BackWritesAppend | include/stl2/detail/iterator/insert_iterators.hpp:55-58 | writing `v1..vn` through a back cursor appends them in order |
| InsertIterators.BackWritesIntoEmpty | include/stl2/detail/iterator/insert_iterators.hpp:69-72 | writing `v1..vn` into an empty container through a back cursor gives exactly `v1..vn` |
| InsertIterators.FrontWritesReverse | include/stl2/detail/iterator/insert_iterators.hpp:90-93 | writing `v1..vn` through a front cursor puts `vn..v1` ahead of the old contents |
| InsertIterators.InsertWritesSplice | include/stl2/detail/iterator/insert_iterators.hpp:131-135 | writing `v1..vn` through `inserter(x, i)` gives `x[..i] + v1..vn + x[i..]` and leaves the position at `i + n` |
| InsertIterators.WritesGrowByOne | include/stl2/detail/iterator/insert_iterators.hpp:57 | every write through any of the three cursors grows the container by exactly one element |

## Left out

- The compile-time concepts (`object.hpp`, `function.hpp`, `algorithm.hpp`,
  `fundamental.hpp`) have no runtime behaviour; only the split view's
  admission rule (a forward source, or a pattern of length at most one) is
  kept, as the precondition of `SplitIterators.SplitView.constructor`.
- `functional.hpp`: element comparison is Dafny `==`.
- `test/iterator/ostreambuf_iterator.cpp`: stream output.
- The `view::split` function object, its pipe closure, the deduction guides
  and construction through `view::all`: type plumbing only.
- The `Const` duplication of the iterator types, the const overloads of
  `begin()`/`end()` and the conversion from the non-const outer iterator are
  collapsed into one model; `iter_move` and `iter_swap` only forward to the
  source iterator.
- A default-constructed outer or inner iterator (null parent) can be neither
  dereferenced nor advanced, so it is not modelled.
- The void postfix `++` of a single-pass outer or inner iterator is the
  prefix `++` with its result dropped (`SplitIterators.Increment`, `SplitIterators.InnerIncrement`).
- `basic_iterator`, `raw_ptr` and `cursor_access` are not part of this model:
  a write through an insert iterator is the cursor's `Write`, and the no-op
  `++` of an output iterator has nothing to model.
- The container is the external collaborator: `InsertIterators.Container`
  states only the `push_back`, `push_front` and `insert` contracts the cursors
  rely on.
- SplitIterators.SplitView.Begin: a single-pass source is a sequence whose
  `begin()` is always index 0, so the model covers the first traversal of a
  fresh input range; an input range that has already been consumed, whose
  `begin()` stands wherever the earlier reads left it (split.hpp:77), is not
  modelled, and a single-pass view can be driven again from the start.
- SplitIterators.SplitView.Default: a value-initialised view is modelled
  with an empty pattern; a pattern whose size is fixed by its type (such as
  the `single_view` built at split.hpp:71-73, which holds one
  value-initialised element) is not.
- SplitSpec.SegmentsRebuild: states only that at most one extra copy of the
  pattern follows the rebuilt source, not when it is there, because that
  depends on where overlapping matches were cut.

## Findings

| source | as written | input that shows it | evidently intended | confidence | as-written member | corrected member |
|---|---|---|---|---|---|---|
| include/stl2/view/split.hpp:177-182 | forward postfix `++` copies `*this` into `tmp`, advances, and returns `*this`, leaving `tmp` unused | a forward view over `"a,b"` split on `","`: postfix `++` on `begin()` returns an iterator at cursor 2, not 0 | return the copy taken before the advance, as the inner iterator's postfix `++` does (split.hpp:263-268) | high; not executed | SplitIterators.PostIncrement | SplitIterators.PostIncrementCorrected |
