/** The graph's bidirectional `const_iterator`. It reads a map it does not change:
    `table` is that map, `outer_begin_` is entry 0 and `outer_end_` is entry |table|. */
module Iterators {
  import opened Edges
  import opened Tables
  import opened Cursors

  class ConstIterator {
    const table: Table
    var outer: nat
    var inner: nat

    function Pos(): Cursor
      reads this
    {
      Cursor(outer, inner)
    }

    /** The constructor, for the outer positions cbegin() and cend() pass in. */
    constructor (t: Table, o: nat)
      requires o == 0 || o == |t|
      ensures table == t && Pos() == Construct(t, o)
    {
      table := t;
      if |t| == 0 {
        outer, inner := o, 0;
      } else if o == |t| {
        var last := o - 1;
        inner := |t[last].edges|;
        outer := last + 1;
      } else {
        outer, inner := o, 0;
      }
    }

    /** A copy of an iterator standing at `c` (the iterator's implicit copy constructor). */
    constructor Copy(t: Table, c: Cursor)
      ensures table == t && Pos() == c
    {
      table := t;
      outer, inner := c.outer, c.inner;
    }

    /** operator*: the (src, dst, weight) triple under the iterator. */
    function Get(): (e: Edge)
      reads this
      requires IsPos(table, Pos())
      ensures e == Flat(table)[Index(table, Pos())]
    {
      Deref(table, Pos())
    }

    /** operator==: both cursor components agree. Over one map and at resting
        positions this is equality of places in the edge order. */
    function Equals(other: ConstIterator): (r: bool)
      reads this, other
      ensures r <==> Pos() == other.Pos()
      ensures table == other.table && ValidCursor(table, Pos()) && ValidCursor(table, other.Pos()) ==>
                (r <==> Index(table, Pos()) == Index(table, other.Pos()))
    {
      if table == other.table && ValidCursor(table, Pos()) && ValidCursor(table, other.Pos()) then
        CursorEqualIffSameIndex(table, Pos(), other.Pos());
        outer == other.outer && inner == other.inner
      else
        outer == other.outer && inner == other.inner
    }

    /** Prefix operator++. */
    method Increment()
      requires IsPos(table, Pos())
      modifies this
      ensures Pos() == Succ(table, old(Pos()))
    {
      ghost var next := Succ(table, Pos());
      inner := inner + 1;
      if inner == |table[outer].edges| {
        // skip entries with no edges
        outer := outer + 1;
        while outer == |table| || |table[outer].edges| == 0
          invariant 0 < outer <= |table|
          invariant SkipFrom(table, outer) == next
          decreases |table| - outer
        {
          SkipFromStep(table, outer);
          if outer == |table| {
            inner := |table[outer - 1].edges|;
            return;
          }
          outer := outer + 1;
        }
        SkipFromStep(table, outer);
        inner := 0;
      }
    }

    /** Postfix operator++: advances, and returns where the iterator stood. */
    method PostIncrement() returns (was: Cursor)
      requires IsPos(table, Pos())
      modifies this
      ensures was == old(Pos()) && Pos() == Succ(table, was)
    {
      was := Pos();
      Increment();
    }

    /** Prefix operator--. */
    method Decrement()
      requires ValidCursor(table, Pos()) && |table| > 0
      modifies this
      ensures Pos() == Pred(table, old(Pos()))
    {
      ghost var prev := Pred(table, Pos());
      if outer == |table| {
        outer := outer - 1;
        inner := |table[outer].edges|;
      }
      if inner == 0 {
        // skip all empty entries
        if outer == 0 {
          return;
        }
        outer := outer - 1;
        while |table[outer].edges| == 0
          invariant outer < |table| && inner == 0
          invariant BackFrom(table, outer + 1) == prev
          decreases outer
        {
          BackFromStep(table, outer + 1);
          if outer == 0 {
            return;
          }
          outer := outer - 1;
        }
        BackFromStep(table, outer + 1);
        inner := |table[outer].edges|;
      }
      inner := inner - 1;
    }

    /** Postfix operator--: steps back, and returns where the iterator stood. */
    method PostDecrement() returns (was: Cursor)
      requires ValidCursor(table, Pos()) && |table| > 0
      modifies this
      ensures was == old(Pos()) && Pos() == Pred(table, was)
    {
      was := Pos();
      Decrement();
    }
  }
}
