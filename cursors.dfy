/** The position of a `const_iterator`: the (outer_, inner_) cursor into the two-level
    map of edge sets, and the step functions that operator++ and operator-- compute. */
module Cursors {
  import opened Edges
  import opened Tables

  /** `outer` is the index of the map entry, `inner` the index inside that entry's edge set. */
  datatype Cursor = Cursor(outer: nat, inner: nat)

  /** The iterator constructor: on an empty map nothing is set (inner_ stays at its
      default); for the map's end, inner_ is the last entry's cend(); for the map's
      begin, inner_ is the first entry's cbegin(), whether or not that set is empty.
      Only these two outer positions are ever passed in. */
  function Construct(t: Table, o: nat): Cursor
    requires o == 0 || o == |t|
  {
    if |t| == 0 then Cursor(o, 0)
    else if o == |t| then Cursor(|t|, |t[|t| - 1].edges|)
    else Cursor(0, 0)
  }

  /** cend(): the iterator constructed at the map's end. Its outer_ is outer_end_,
      one past the last entry, so it stands on no edge. */
  function End(t: Table): (c: Cursor)
    ensures c.outer == |t|
  {
    Construct(t, |t|)
  }

  /** The cursor stands on an edge. */
  predicate IsPos(t: Table, c: Cursor) {
    c.outer < |t| && c.inner < |t[c.outer].edges|
  }

  /** A resting position: on an edge, or the end position. Never an empty entry. */
  predicate ValidCursor(t: Table, c: Cursor) {
    IsPos(t, c) || c == End(t)
  }

  /** The place of a resting position in the flattened edge order; the end position
      is one past the last edge. */
  function Index(t: Table, c: Cursor): (k: nat)
    requires ValidCursor(t, c)
    ensures k <= |Flat(t)|
    ensures IsPos(t, c) <==> k < |Flat(t)|
  {
    if IsPos(t, c) then
      FlatAt(t, c.outer, c.inner);
      Offset(t, c.outer) + c.inner
    else
      |Flat(t)|
  }

  /** operator*: the (src, dst, weight) triple under the cursor, which is the edge at
      the cursor's place in the flattened order. */
  function Deref(t: Table, c: Cursor): (e: Edge)
    requires IsPos(t, c)
    ensures e == Flat(t)[Index(t, c)]
  {
    FlatAt(t, c.outer, c.inner);
    t[c.outer].edges[c.inner]
  }

  lemma IndexOrder(t: Table, c1: Cursor, c2: Cursor)
    requires IsPos(t, c1) && IsPos(t, c2)
    ensures c1.outer < c2.outer ==> Index(t, c1) < Index(t, c2)
  {
    if c1.outer < c2.outer {
      OffsetStep(t, c1.outer);
      OffsetMono(t, c1.outer + 1, c2.outer);
    }
  }

  /** Distinct resting positions have distinct places in the flattened order. */
  lemma IndexInjective(t: Table, c1: Cursor, c2: Cursor)
    requires ValidCursor(t, c1) && ValidCursor(t, c2)
    requires Index(t, c1) == Index(t, c2)
    ensures c1 == c2
  {
    if IsPos(t, c1) && IsPos(t, c2) {
      IndexOrder(t, c1, c2);
      IndexOrder(t, c2, c1);
    }
  }

  /** operator==: two iterators over one map are equal iff they stand at the same
      place of the flattened order. */
  lemma CursorEqualIffSameIndex(t: Table, c1: Cursor, c2: Cursor)
    requires ValidCursor(t, c1) && ValidCursor(t, c2)
    ensures c1 == c2 <==> Index(t, c1) == Index(t, c2)
  {
    if Index(t, c1) == Index(t, c2) {
      IndexInjective(t, c1, c2);
    }
  }

  /** Under a valid table each edge stands at exactly one position. */
  lemma PosOfEdgeUnique(t: Table, c1: Cursor, c2: Cursor)
    requires ValidTable(t) && IsPos(t, c1) && IsPos(t, c2)
    requires Deref(t, c1) == Deref(t, c2)
    ensures c1 == c2
  {
    FlatAscending(t);
    AscendingDistinct(Flat(t), Index(t, c1), Index(t, c2));
    IndexInjective(t, c1, c2);
  }

  /** In a valid map the position holding the k-th edge of the order has place k. */
  lemma PlaceOfEdge(t: Table, d: Cursor, k: int)
    requires ValidTable(t) && IsPos(t, d) && 0 <= k < |Flat(t)|
    requires Deref(t, d) == Flat(t)[k]
    ensures Index(t, d) == k
  {
    FlatAscending(t);
    AscendingDistinct(Flat(t), Index(t, d), k);
  }

  /** The forward skip of operator++ from entry `o`: pass over entries with empty edge
      sets; stop at the first edge of a non-empty entry, or at the end position. */
  function SkipFrom(t: Table, o: nat): (c: Cursor)
    requires o <= |t|
    ensures ValidCursor(t, c) && Index(t, c) == Offset(t, o)
    decreases |t| - o
  {
    if o == |t| then
      OffsetEnd(t);
      End(t)
    else if |t[o].edges| == 0 then
      OffsetStep(t, o);
      SkipFrom(t, o + 1)
    else
      Cursor(o, 0)
  }

  /** One step of the forward skip. */
  lemma SkipFromStep(t: Table, o: nat)
    requires o <= |t|
    ensures o == |t| ==> SkipFrom(t, o) == End(t)
    ensures o < |t| && |t[o].edges| == 0 ==> SkipFrom(t, o) == SkipFrom(t, o + 1)
    ensures o < |t| && |t[o].edges| > 0 ==> SkipFrom(t, o) == Cursor(o, 0)
  {
  }

  /** operator++: advance inner_; at the end of the entry's set, skip forward. The
      result is the next place of the flattened order: the next edge, or the end
      position (the very cursor cend() builds) after the last edge. */
  function Succ(t: Table, c: Cursor): (d: Cursor)
    requires IsPos(t, c)
    ensures ValidCursor(t, d) && Index(t, d) == Index(t, c) + 1
  {
    if c.inner + 1 == |t[c.outer].edges| then
      OffsetStep(t, c.outer);
      SkipFrom(t, c.outer + 1)
    else
      Cursor(c.outer, c.inner + 1)
  }

  /** The backward walk of operator-- from entry `o` with inner_ at its cbegin():
      step back over entries with empty edge sets to the last edge of the nearest
      non-empty entry before `o`; with none, stop at the map's first entry. */
  function BackFrom(t: Table, o: nat): (c: Cursor)
    requires o <= |t|
    ensures Offset(t, o) > 0 ==> IsPos(t, c) && Index(t, c) == Offset(t, o) - 1
    decreases o
  {
    if o == 0 then
      Cursor(0, 0)
    else if |t[o - 1].edges| == 0 then
      OffsetStep(t, o - 1);
      BackFrom(t, o - 1)
    else
      OffsetStep(t, o - 1);
      Cursor(o - 1, |t[o - 1].edges| - 1)
  }

  /** One step of the backward walk. */
  lemma BackFromStep(t: Table, o: nat)
    requires 0 < o <= |t|
    ensures |t[o - 1].edges| == 0 ==> BackFrom(t, o) == BackFrom(t, o - 1)
    ensures |t[o - 1].edges| > 0 ==> BackFrom(t, o) == Cursor(o - 1, |t[o - 1].edges| - 1)
  {
  }

  /** operator--: from the end position first move to the last entry's cend(); then
      step inner_ back, walking back over empty entries when at a set's cbegin().
      Every position past the first edge goes to the previous place of the order;
      decrementing the first edge is undefined. */
  function Pred(t: Table, c: Cursor): (d: Cursor)
    requires ValidCursor(t, c) && |t| > 0
    ensures Index(t, c) > 0 ==> IsPos(t, d) && Index(t, d) == Index(t, c) - 1
  {
    OffsetStep(t, |t| - 1);
    OffsetEnd(t);
    var o := if c.outer == |t| then |t| - 1 else c.outer;
    var i := if c.outer == |t| then |t[|t| - 1].edges| else c.inner;
    if i == 0 then BackFrom(t, o) else Cursor(o, i - 1)
  }

  /** `--` undoes `++`. */
  lemma PredSucc(t: Table, c: Cursor)
    requires IsPos(t, c)
    ensures Pred(t, Succ(t, c)) == c
  {
    IndexInjective(t, Pred(t, Succ(t, c)), c);
  }

  /** `++` undoes `--` on every position other than the first edge. */
  lemma SuccPred(t: Table, c: Cursor)
    requires ValidCursor(t, c) && |t| > 0 && Index(t, c) > 0
    ensures Succ(t, Pred(t, c)) == c
  {
    IndexInjective(t, Succ(t, Pred(t, c)), c);
  }

  /** `++` on the last edge yields exactly the position the constructor builds for cend(). */
  lemma SuccOfLastIsEnd(t: Table, c: Cursor)
    requires IsPos(t, c) && Index(t, c) + 1 == |Flat(t)|
    ensures Succ(t, c) == Construct(t, |t|)
  {
  }

  /** `--` on the end position lands on the last edge of the last non-empty entry. */
  lemma PredOfEndIsLastEdge(t: Table)
    requires |Flat(t)| > 0
    ensures IsPos(t, Pred(t, End(t)))
    ensures Deref(t, Pred(t, End(t))) == Flat(t)[|Flat(t)| - 1]
    ensures forall o :: Pred(t, End(t)).outer < o < |t| ==> |t[o].edges| == 0
  {
    var p := Pred(t, End(t));
    OffsetEnd(t);
    assert Index(t, p) == Offset(t, p.outer) + p.inner;
    OffsetStep(t, p.outer);
    forall o | p.outer < o < |t|
      ensures |t[o].edges| == 0
    {
      OffsetMono(t, p.outer + 1, o);
      OffsetStep(t, o);
      OffsetMono(t, o + 1, |t|);
    }
  }

  /** cbegin() as intended: the first edge of the flattened order, skipping entries
      with empty edge sets, or the end position when there is no edge. */
  function Begin(t: Table): (c: Cursor)
    ensures ValidCursor(t, c) && Index(t, c) == 0
  {
    SkipFrom(t, 0)
  }

  /** On a graph without edges begin and end coincide. */
  lemma EmptyBeginIsEnd(t: Table)
    requires Flat(t) == []
    ensures Begin(t) == End(t)
  {
  }

  /** cbegin() as written: the constructor's begin branch. It is right when the map
      is empty or the smallest node has an edge; when the smallest node has no edge it
      is neither on an edge nor the end position, even if the map holds no edge. */
  function AsWrittenBegin(t: Table): (c: Cursor)
    ensures t == [] ==> c == End(t)
    ensures t != [] && t[0].edges != [] ==> IsPos(t, c) && Index(t, c) == 0
    ensures t != [] && t[0].edges == [] ==> !ValidCursor(t, c)
  {
    Construct(t, 0)
  }

  /** The written begin is right whenever the smallest node has an outgoing edge. */
  lemma AsWrittenBeginAgrees(t: Table)
    requires |t| == 0 || |t[0].edges| > 0
    ensures AsWrittenBegin(t) == Begin(t)
  {
  }

  /** A graph whose smallest node has no outgoing edge: the written begin rests on the
      empty entry, a position that neither stands on an edge nor is the end, while the
      intended begin is the edge 2 -> 1. */
  lemma AsWrittenBeginRestsOnEmptyEntry()
    ensures var t := [Entry(1, []), Entry(2, [Edge(2, 1, 5)])];
            ValidTable(t) && !ValidCursor(t, AsWrittenBegin(t))
            && Begin(t) == Cursor(1, 0) && Deref(t, Begin(t)) == Edge(2, 1, 5)
  {
  }

  /** The edges a begin..end loop visits from `c`, applying operator++ until the end. */
  function Forward(t: Table, c: Cursor): seq<Edge>
    requires ValidCursor(t, c)
    decreases |Flat(t)| - Index(t, c)
  {
    if c == End(t) then [] else [Deref(t, c)] + Forward(t, Succ(t, c))
  }

  lemma {:induction false} ForwardIsFlat(t: Table, c: Cursor)
    requires ValidCursor(t, c)
    ensures Forward(t, c) == Flat(t)[Index(t, c)..]
    decreases |Flat(t)| - Index(t, c)
  {
    if c != End(t) {
      ForwardIsFlat(t, Succ(t, c));
      assert Flat(t)[Index(t, c)..] == [Flat(t)[Index(t, c)]] + Flat(t)[Index(t, c) + 1..];
    }
  }

  /** The edges visited walking back from `c` with operator-- until the first edge. */
  function Backward(t: Table, c: Cursor): seq<Edge>
    requires ValidCursor(t, c)
    decreases Index(t, c)
  {
    if Index(t, c) == 0 then []
    else
      var p := Pred(t, c);
      [Deref(t, p)] + Backward(t, p)
  }

  lemma {:induction false} BackwardIsReversed(t: Table, c: Cursor)
    requires ValidCursor(t, c)
    ensures |Backward(t, c)| == Index(t, c)
    ensures forall k :: 0 <= k < Index(t, c) ==> Backward(t, c)[k] == Flat(t)[Index(t, c) - 1 - k]
    decreases Index(t, c)
  {
    if Index(t, c) > 0 {
      BackwardIsReversed(t, Pred(t, c));
    }
  }

  /** Iterating begin..end visits every stored edge exactly once, in strictly ascending
      (src, dst, weight) order. */
  lemma ForwardTraversal(t: Table)
    requires ValidTable(t)
    ensures Forward(t, Begin(t)) == Flat(t)
    ensures Ascending(Forward(t, Begin(t)))
    ensures forall e :: e in Forward(t, Begin(t)) <==> exists o :: 0 <= o < |t| && e in t[o].edges
  {
    ForwardIsFlat(t, Begin(t));
    assert Flat(t)[0..] == Flat(t);
    FlatAscending(t);
    forall e
      ensures e in Flat(t) <==> exists o :: 0 <= o < |t| && e in t[o].edges
    {
      FlatMember(t, e);
    }
  }

  /** Walking back from end with operator-- visits the edges in exactly the reverse
      order. */
  lemma BackwardTraversal(t: Table)
    ensures |Backward(t, End(t))| == |Flat(t)|
    ensures forall k :: 0 <= k < |Flat(t)| ==> Backward(t, End(t))[k] == Flat(t)[|Flat(t)| - 1 - k]
  {
    assert Index(t, End(t)) == |Flat(t)|;
    BackwardIsReversed(t, End(t));
  }
}
