/**
 * Back, front and positional insertion cursors. Each holds a reference to
 * a container (null when default-constructed) and turns a write into an
 * insertion into that container; the positional cursor also keeps the
 * index before which it inserts.
 */
module InsertIterators {

  /** A sequence container, through the insertion operations the cursors use. */
  class Container<T> {
    var elems: seq<T>

    constructor (init: seq<T>)
      ensures elems == init
    {
      elems := init;
    }

    /** `push_back`. */
    method PushBack(v: T)
      modifies this
      ensures elems == old(elems) + [v]
    {
      elems := elems + [v];
    }

    /** `push_front`. */
    method PushFront(v: T)
      modifies this
      ensures elems == [v] + old(elems)
    {
      elems := [v] + elems;
    }

    /** `insert(i, v)`: insert before position `i`; the result designates the new element. */
    method Insert(i: nat, v: T) returns (r: nat)
      requires i <= |elems|
      modifies this
      ensures elems == InsertAt(old(elems), i, v)
      ensures r == i && elems[r] == v
    {
      elems := elems[..i] + [v] + elems[i..];
      r := i;
    }
  }

  /**
   * The contents after inserting `v` before position `i`: one element
   * longer, `v` at `i`, everything before `i` and from `i` on unchanged.
   */
  function InsertAt<T>(xs: seq<T>, i: nat, v: T): (r: seq<T>)
    requires i <= |xs|
    ensures |r| == |xs| + 1
    ensures r[..i] == xs[..i] && r[i] == v && r[i + 1..] == xs[i..]
  {
    xs[..i] + [v] + xs[i..]
  }

  /** `back_insert_cursor`: writes append to the container. */
  class BackInsertCursor<T> {
    const container: Container?<T>

    /** Default construction: no container. */
    constructor Default()
      ensures container == null
    {
      container := null;
    }

    /** Construction from a container records that container. */
    constructor (x: Container<T>)
      ensures container == x
    {
      container := x;
    }

    /** `write`: `v` becomes the new last element; the cursor itself does not change. */
    method Write(v: T)
      requires container != null
      modifies container
      ensures container.elems == old(container.elems) + [v]
    {
      container.PushBack(v);
    }
  }

  /** `front_insert_cursor`: writes prepend to the container. */
  class FrontInsertCursor<T> {
    const container: Container?<T>

    /** Default construction: no container. */
    constructor Default()
      ensures container == null
    {
      container := null;
    }

    /** Construction from a container records that container. */
    constructor (x: Container<T>)
      ensures container == x
    {
      container := x;
    }

    /** `write`: `v` becomes the new first element; the cursor itself does not change. */
    method Write(v: T)
      requires container != null
      modifies container
      ensures container.elems == [v] + old(container.elems)
    {
      container.PushFront(v);
    }
  }

  /** `insert_cursor`: writes insert before a stored position, which then moves past the new element. */
  class InsertCursor<T> {
    const container: Container?<T>
    var iter: nat

    /** The stored position lies within the container. */
    ghost predicate Valid()
      reads this, container
    {
      container != null && iter <= |container.elems|
    }

    /** Default construction: no container. */
    constructor Default()
      ensures container == null && iter == 0
    {
      container := null;
      iter := 0;
    }

    /** Construction from a container and a position in it. */
    constructor (x: Container<T>, i: nat)
      requires i <= |x.elems|
      ensures Valid() && container == x && iter == i
    {
      container := x;
      iter := i;
    }

    /** `write`: insert `v` before the stored position, then step the position past it. */
    method Write(v: T)
      requires Valid()
      modifies this, container
      ensures Valid()
      ensures container.elems == InsertAt(old(container.elems), old(iter), v)
      ensures iter == old(iter) + 1
    {
      iter := container.Insert(iter, v);
      iter := iter + 1;
    }
  }

  /** `back_inserter(c)`. */
  method BackInserter<T>(c: Container<T>) returns (it: BackInsertCursor<T>)
    ensures fresh(it) && it.container == c
  {
    it := new BackInsertCursor(c);
  }

  /** `front_inserter(x)`. */
  method FrontInserter<T>(x: Container<T>) returns (it: FrontInsertCursor<T>)
    ensures fresh(it) && it.container == x
  {
    it := new FrontInsertCursor(x);
  }

  /** `inserter(x, i)`. */
  method Inserter<T>(x: Container<T>, i: nat) returns (it: InsertCursor<T>)
    requires i <= |x.elems|
    ensures fresh(it) && it.Valid() && it.container == x && it.iter == i
  {
    it := new InsertCursor(x, i);
  }

  /** The contents after writing `vs`, one at a time, through a back-insert cursor. */
  function BackWrites<T>(xs: seq<T>, vs: seq<T>): (r: seq<T>)
    decreases |vs|
  {
    if vs == [] then xs else BackWrites(xs + [vs[0]], vs[1..])
  }

  /** The contents after writing `vs`, one at a time, through a front-insert cursor. */
  function FrontWrites<T>(xs: seq<T>, vs: seq<T>): (r: seq<T>)
    decreases |vs|
  {
    if vs == [] then xs else FrontWrites([vs[0]] + xs, vs[1..])
  }

  /** The contents and stored position after writing `vs`, one at a time, through an insert cursor. */
  function InsertWrites<T>(xs: seq<T>, i: nat, vs: seq<T>): (r: (seq<T>, nat))
    requires i <= |xs|
    decreases |vs|
  {
    if vs == [] then (xs, i) else InsertWrites(InsertAt(xs, i, vs[0]), i + 1, vs[1..])
  }

  /**
   * Write `vs`, one value at a time, through a back-insert cursor (what
   * `copy(vs, back_inserter(c))` does). The container ends up as the fold
   * of single writes.
   */
  method CopyBack<T>(vs: seq<T>, c: BackInsertCursor<T>)
    requires c.container != null
    modifies c.container
    ensures c.container.elems == BackWrites(old(c.container.elems), vs)
  {
    var k := 0;
    while k < |vs|
      invariant k <= |vs|
      invariant BackWrites(c.container.elems, vs[k..]) == BackWrites(old(c.container.elems), vs)
    {
      assert vs[k..][1..] == vs[k + 1..];
      c.Write(vs[k]);
      k := k + 1;
    }
  }

  /** Write `vs`, one value at a time, through a front-insert cursor. */
  method CopyFront<T>(vs: seq<T>, c: FrontInsertCursor<T>)
    requires c.container != null
    modifies c.container
    ensures c.container.elems == FrontWrites(old(c.container.elems), vs)
  {
    var k := 0;
    while k < |vs|
      invariant k <= |vs|
      invariant FrontWrites(c.container.elems, vs[k..]) == FrontWrites(old(c.container.elems), vs)
    {
      assert vs[k..][1..] == vs[k + 1..];
      c.Write(vs[k]);
      k := k + 1;
    }
  }

  /**
   * Write `vs`, one value at a time, through an insert cursor: the
   * container and the stored position end up as the fold of single writes.
   */
  method CopyInsert<T>(vs: seq<T>, c: InsertCursor<T>)
    requires c.Valid()
    modifies c, c.container
    ensures c.Valid()
    ensures (c.container.elems, c.iter) == InsertWrites(old(c.container.elems), old(c.iter), vs)
  {
    var k := 0;
    while k < |vs|
      invariant k <= |vs| && c.Valid()
      invariant InsertWrites(c.container.elems, c.iter, vs[k..])
             == InsertWrites(old(c.container.elems), old(c.iter), vs)
    {
      assert vs[k..][1..] == vs[k + 1..];
      c.Write(vs[k]);
      k := k + 1;
    }
  }

  /** `vs` in the opposite order. */
  function Reverse<T>(vs: seq<T>): (r: seq<T>)
    ensures |r| == |vs|
    ensures forall k :: 0 <= k < |vs| ==> r[k] == vs[|vs| - 1 - k]
  {
    if vs == [] then [] else Reverse(vs[1..]) + [vs[0]]
  }

  /** Writing `v1..vn` through a back-insert cursor appends them in order. */
  lemma {:induction false} BackWritesAppend<T>(xs: seq<T>, vs: seq<T>)
    ensures BackWrites(xs, vs) == xs + vs
    decreases |vs|
  {
    if vs != [] {
      BackWritesAppend(xs + [vs[0]], vs[1..]);
      assert xs + [vs[0]] + vs[1..] == xs + vs;
    }
  }

  /** Writing `v1..vn` through a front-insert cursor puts `vn..v1` ahead of the old contents. */
  lemma {:induction false} FrontWritesReverse<T>(xs: seq<T>, vs: seq<T>)
    ensures FrontWrites(xs, vs) == Reverse(vs) + xs
    decreases |vs|
  {
    if vs != [] {
      FrontWritesReverse([vs[0]] + xs, vs[1..]);
      assert Reverse(vs) == Reverse(vs[1..]) + [vs[0]];
      assert Reverse(vs[1..]) + ([vs[0]] + xs) == Reverse(vs) + xs;
    }
  }

  /**
   * Writing `v1..vn` through `inserter(x, i)` splices them in at `i`, in
   * order, and leaves the stored position at `i + n`.
   */
  lemma {:induction false} InsertWritesSplice<T>(xs: seq<T>, i: nat, vs: seq<T>)
    requires i <= |xs|
    ensures InsertWrites(xs, i, vs) == (xs[..i] + vs + xs[i..], i + |vs|)
    decreases |vs|
  {
    if vs != [] {
      var ys := InsertAt(xs, i, vs[0]);
      assert InsertWrites(xs, i, vs) == InsertWrites(ys, i + 1, vs[1..]);
      InsertWritesSplice(ys, i + 1, vs[1..]);
      assert i + 1 + |vs[1..]| == i + |vs|;
      assert ys[..i + 1] == xs[..i] + [vs[0]];
      assert ys[i + 1..] == xs[i..];
      assert xs[..i] + [vs[0]] + vs[1..] == xs[..i] + vs;
      assert ys[..i + 1] + vs[1..] + ys[i + 1..] == xs[..i] + vs + xs[i..];
    } else {
      assert xs[..i] + vs + xs[i..] == xs;
    }
  }

  /** Writing into an empty container through a back-insert cursor gives exactly what was written. */
  lemma BackWritesIntoEmpty<T>(vs: seq<T>)
    ensures BackWrites([], vs) == vs
  {
    BackWritesAppend([], vs);
  }

  /** Every write grows the container by exactly one element. */
  lemma {:induction false} WritesGrowByOne<T>(xs: seq<T>, i: nat, vs: seq<T>)
    requires i <= |xs|
    ensures |BackWrites(xs, vs)| == |xs| + |vs|
    ensures |FrontWrites(xs, vs)| == |xs| + |vs|
    ensures |InsertWrites(xs, i, vs).0| == |xs| + |vs|
    decreases |vs|
  {
    if vs != [] {
      WritesGrowByOne(xs + [vs[0]], i, vs[1..]);
      WritesGrowByOne([vs[0]] + xs, i, vs[1..]);
      WritesGrowByOne(InsertAt(xs, i, vs[0]), i + 1, vs[1..]);
    }
  }
}
