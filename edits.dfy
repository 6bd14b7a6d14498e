/** The changes the graph's operations make to its map, as functions from the old map
    to the new one, with what each keeps and what each changes. */
module Edits {
  import opened Edges
  import opened Tables
  import opened Cursors

  /** Some edge src -> dst, of any weight, is stored (what IsConnected reports). */
  ghost predicate Connected(t: Table, src: int, dst: int) {
    exists e :: e in Flat(t) && e.src == src && e.dst == dst
  }

  /** Linear search of one edge set for an edge to `dst`, of any weight. */
  function HasEdgeTo(s: seq<Edge>, dst: int): (r: bool)
    ensures r <==> exists e :: e in s && e.dst == dst
  {
    if s == [] then false
    else
      assert s == [s[0]] + s[1..];
      s[0].dst == dst || HasEdgeTo(s[1..], dst)
  }

  /** src and dst are connected exactly when src's own entry holds an edge to dst. */
  lemma ConnectedInHomeEntry(t: Table, o: int, src: int, dst: int)
    requires ValidTable(t) && 0 <= o < |t| && t[o].node == src
    ensures Connected(t, src, dst) <==> exists e :: e in t[o].edges && e.dst == dst
  {
    if Connected(t, src, dst) {
      var e :| e in Flat(t) && e.src == src && e.dst == dst;
      var o' := EdgeHome(t, e);
      NodeIndexUnique(t, o, o');
    }
    if exists e :: e in t[o].edges && e.dst == dst {
      var e :| e in t[o].edges && e.dst == dst;
      FlatMember(t, e);
      assert ValidEntry(t[o]);
    }
  }

  /** Replacing one entry's edge set replaces its stretch of the flattened sequence. */
  lemma FlatUpdate(t: Table, o: int, s: seq<Edge>)
    requires 0 <= o < |t|
    ensures Flat(t[o := Entry(t[o].node, s)]) == Flat(t[..o]) + s + Flat(t[o + 1..])
  {
    var r := t[o := Entry(t[o].node, s)];
    FlatSplit(r, o);
    assert r[..o] == t[..o];
    assert r[o + 1..] == t[o + 1..];
  }

  /** A stored edge is stored under its source node, which is a node of the graph. */
  lemma EdgeSrcIsNode(t: Table, e: Edge)
    requires ValidTable(t)
    ensures e in Flat(t) ==> e.src in Nodes(t)
  {
    if e in Flat(t) {
      var o := EdgeHome(t, e);
      assert Nodes(t)[o] == e.src;
    }
  }

  /** An edge missing from its source's entry is missing from the graph. */
  lemma NotInHomeEntry(t: Table, o: int, e: Edge)
    requires ValidTable(t) && 0 <= o < |t| && t[o].node == e.src
    ensures e !in t[o].edges ==> e !in Flat(t)
  {
    if e in Flat(t) {
      var o' := EdgeHome(t, e);
      NodeIndexUnique(t, o, o');
    }
  }

  // ---------------------------------------------------------------------------
  // InsertNode and InsertEdge (their bodies are in graph.tpp, which is not part of
  // this model: the behaviour follows the assertions of the graph's tests)

  /** InsertNode: a new node enters the map, in node order, with no edges; an existing
      node leaves the map unchanged. */
  function AddNode(t: Table, v: int): (r: Table)
    requires ValidTable(t)
    ensures ValidTable(r)
    ensures forall x :: x in Nodes(r) <==> x in Nodes(t) || x == v
    ensures Flat(r) == Flat(t)
    ensures v in Nodes(t) ==> r == t
    ensures Closed(t) ==> Closed(r)
  {
    if t == [] || NodeLess(v, t[0].node) then
      AddNodeFront(t, v);
      [Entry(v, [])] + t
    else if v == t[0].node then
      t
    else
      ValidTail(t);
      var rest := AddNode(t[1..], v);
      AddNodeBehind(t, v, rest);
      [t[0]] + rest
  }

  /** A node below every node of the map enters at the front. */
  lemma AddNodeFront(t: Table, v: int)
    requires ValidTable(t) && (t == [] || NodeLess(v, t[0].node))
    ensures ValidTable([Entry(v, [])] + t)
    ensures forall x :: x in Nodes([Entry(v, [])] + t) <==> x in Nodes(t) || x == v
    ensures Flat([Entry(v, [])] + t) == Flat(t)
    ensures v !in Nodes(t)
  {
    NodesCons(Entry(v, []), t);
    forall x | x in Nodes(t) ensures NodeLess(v, x) {
      HeadNodeIsLeast(t, x);
    }
    PrependValid(Entry(v, []), t);
    assert ([Entry(v, [])] + t)[1..] == t;
  }

  /** A node above the first node enters the rest of the map. */
  lemma AddNodeBehind(t: Table, v: int, rest: Table)
    requires ValidTable(t) && |t| > 0 && NodeLess(t[0].node, v)
    requires ValidTable(rest)
    requires forall x :: x in Nodes(rest) <==> x in Nodes(t[1..]) || x == v
    requires Flat(rest) == Flat(t[1..])
    requires v in Nodes(t[1..]) ==> rest == t[1..]
    ensures ValidTable([t[0]] + rest)
    ensures forall x :: x in Nodes([t[0]] + rest) <==> x in Nodes(t) || x == v
    ensures Flat([t[0]] + rest) == Flat(t)
    ensures v in Nodes(t) ==> [t[0]] + rest == t
  {
    NodesCons(t[0], rest);
    NodesCons(t[0], t[1..]);
    assert t == [t[0]] + t[1..];
    forall x | x in Nodes(rest) ensures NodeLess(t[0].node, x) {
      if x != v {
        NodesTail(t, x);
        HeadNodeIsLeast(t, x);
      }
    }
    PrependValid(t[0], rest);
    assert ([t[0]] + rest)[1..] == rest;
    NodesTail(t, v);
  }

  /** An entry whose node is below every node of a valid map can head it. */
  lemma PrependValid(en: Entry, t: Table)
    requires ValidEntry(en) && ValidTable(t)
    requires forall x :: x in Nodes(t) ==> NodeLess(en.node, x)
    ensures ValidTable([en] + t)
  {
    var r := [en] + t;
    forall i, j | 0 <= i < j < |r| ensures NodeLess(r[i].node, r[j].node) {
      assert r[j] == t[j - 1];
      assert Nodes(t)[j - 1] == t[j - 1].node;
      assert Nodes(t)[j - 1] in Nodes(t);
      if i > 0 {
        assert r[i] == t[i - 1];
      }
    }
  }

  /** Inserting into one node's edge set, kept ascending by EdgeCmp; an edge equal to
      a stored one under EdgeCmp is not inserted again. */
  function InsertSorted(s: seq<Edge>, e: Edge): (r: seq<Edge>)
    requires Ascending(s)
    ensures Ascending(r)
    ensures forall x :: x in r <==> x in s || x == e
    ensures e in s ==> r == s
    ensures |r| == if e in s then |s| else |s| + 1
  {
    if s == [] then [e]
    else if EdgeLess(e, s[0]) then
      assert forall i :: 0 <= i < |s| ==> s[i] == s[0] || EdgeLess(s[0], s[i]);
      forall x | x in s ensures EdgeLess(e, x) {
        EdgeLessIsStrictTotalOrder(e, s[0], x);
      }
      AscendingConcat([e], s);
      assert e !in s;
      [e] + s
    else if e == s[0] then
      s
    else
      var rest := InsertSorted(s[1..], e);
      assert s == [s[0]] + s[1..];
      forall x | x in rest ensures EdgeLess(s[0], x) {
        EdgeLessIsStrictTotalOrder(e, s[0], x);
        if x in s[1..] {
          var i :| 0 <= i < |s| - 1 && s[1..][i] == x;
          assert s[i + 1] == x;
        }
      }
      AscendingConcat([s[0]], rest);
      [s[0]] + rest
  }

  /** Giving one entry another valid edge set for the same node keeps the map valid
      and its nodes. */
  lemma ReplaceEdgesValid(t: Table, o: int, s: seq<Edge>)
    requires ValidTable(t) && 0 <= o < |t|
    requires Ascending(s) && forall x :: x in s ==> x.src == t[o].node
    ensures ValidTable(t[o := Entry(t[o].node, s)])
    ensures Nodes(t[o := Entry(t[o].node, s)]) == Nodes(t)
  {
    var r := t[o := Entry(t[o].node, s)];
    assert ValidEntry(r[o]);
    NodesKeep(t, o, s);
  }

  /** InsertEdge on two existing nodes: the edge joins its source's edge set; an
      identical (src, dst, weight) triple already stored leaves the map unchanged. */
  function AddEdge(t: Table, e: Edge): (r: Table)
    requires ValidTable(t) && e.src in Nodes(t) && e.dst in Nodes(t)
    ensures ValidTable(r) && Nodes(r) == Nodes(t)
    ensures Closed(t) ==> Closed(r)
    ensures forall f :: f in Flat(r) <==> f in Flat(t) || f == e
    ensures e in Flat(t) ==> r == t
    ensures |Flat(r)| == if e in Flat(t) then |Flat(t)| else |Flat(t)| + 1
  {
    var o := LookupNode(t, e.src).value;
    var s := InsertSorted(t[o].edges, e);
    assert ValidEntry(t[o]);
    ReplaceEdgesValid(t, o, s);
    FlatUpdate(t, o, s);
    FlatSplit(t, o);
    NotInHomeEntry(t, o, e);
    assert e in t[o].edges ==> e in Flat(t);
    t[o := Entry(t[o].node, s)]
  }

  /** Inserting the same edge twice: the second insertion finds it and changes nothing,
      and the inserted edge connects its endpoints. */
  lemma InsertEdgeTwice(t: Table, e: Edge)
    requires ValidTable(t) && e.src in Nodes(t) && e.dst in Nodes(t)
    ensures e in Flat(AddEdge(t, e))
    ensures AddEdge(AddEdge(t, e), e) == AddEdge(t, e)
    ensures Connected(AddEdge(t, e), e.src, e.dst)
  {
  }

  // ---------------------------------------------------------------------------
  // Finding and erasing an edge

  /** Linear search of one edge set. */
  function IndexIn(s: seq<Edge>, e: Edge): (r: Option<nat>)
    ensures r.Some? ==> r.value < |s| && s[r.value] == e
    ensures r.None? <==> e !in s
  {
    if s == [] then None
    else if s[0] == e then Some(0)
    else
      match IndexIn(s[1..], e)
      case None =>
        assert s == [s[0]] + s[1..];
        None
      case Some(i) => Some(i + 1)
  }

  /** Where an edge is stored: its source's entry, then its place in that edge set. */
  function Locate(t: Table, e: Edge): (r: Option<Cursor>)
    requires ValidTable(t)
    ensures r.Some? ==> IsPos(t, r.value) && Deref(t, r.value) == e
    ensures r.None? <==> e !in Flat(t)
  {
    EdgeSrcIsNode(t, e);
    match LookupNode(t, e.src)
    case None => None
    case Some(o) =>
      NotInHomeEntry(t, o, e);
      match IndexIn(t[o].edges, e)
      case None => None
      case Some(i) => Some(Cursor(o, i))
  }

  /** Erasing the edge at a position: the flattened sequence loses exactly that element
      and the nodes stay. */
  function RemoveAt(t: Table, c: Cursor): (r: Table)
    requires IsPos(t, c)
    ensures Nodes(r) == Nodes(t)
    ensures Flat(r) == Flat(t)[..Index(t, c)] + Flat(t)[Index(t, c) + 1..]
  {
    var o, i := c.outer, c.inner;
    var s := t[o].edges;
    var s' := s[..i] + s[i + 1..];
    FlatUpdate(t, o, s');
    FlatSplit(t, o);
    DropFromMiddle(Flat(t[..o]), s, Flat(t[o + 1..]), i);
    NodesKeep(t, o, s');
    t[o := Entry(t[o].node, s')]
  }

  /** Dropping element i of the middle part of a + s + b drops element |a| + i of the whole. */
  lemma DropFromMiddle(a: seq<Edge>, s: seq<Edge>, b: seq<Edge>, i: int)
    requires 0 <= i < |s|
    ensures a + (s[..i] + s[i + 1..]) + b == (a + s + b)[..|a| + i] + (a + s + b)[|a| + i + 1..]
  {
    var w := a + s + b;
    assert w[..|a| + i] == a + s[..i];
    assert w[|a| + i + 1..] == s[i + 1..] + b;
  }

  /** Replacing an entry's edge set keeps the node list. */
  lemma NodesKeep(t: Table, o: int, s: seq<Edge>)
    requires 0 <= o < |t|
    ensures Nodes(t[o := Entry(t[o].node, s)]) == Nodes(t)
  {
    assert Nodes(t[o := Entry(t[o].node, s)]) == Nodes(t);
  }

  lemma RemoveAtValid(t: Table, c: Cursor)
    requires ValidTable(t) && IsPos(t, c)
    ensures ValidTable(RemoveAt(t, c))
  {
    var s := t[c.outer].edges;
    AscendingRemove(s, c.inner);
    var r := RemoveAt(t, c);
    assert ValidEntry(t[c.outer]);
    assert forall e :: e in s[..c.inner] + s[c.inner + 1..] ==> e in s;
    assert ValidEntry(r[c.outer]);
  }

  /** After erasing the edge at place k, the edge that followed it stands at place k. */
  lemma RemoveAtShifts(t: Table, c: Cursor)
    requires ValidTable(t) && IsPos(t, c)
    ensures ValidTable(RemoveAt(t, c))
    ensures |Flat(RemoveAt(t, c))| == |Flat(t)| - 1
    ensures Index(t, c) + 1 < |Flat(t)| ==>
              Flat(RemoveAt(t, c))[Index(t, c)] == Flat(t)[Index(t, c) + 1]
  {
    RemoveAtValid(t, c);
  }

  /** erase(src, dst, w): the map without that one edge; unchanged if it is absent. */
  function RemoveEdge(t: Table, e: Edge): (r: Table)
    requires ValidTable(t)
    ensures ValidTable(r) && Nodes(r) == Nodes(t)
    ensures forall f :: f in Flat(r) <==> f in Flat(t) && f != e
    ensures Closed(t) ==> Closed(r)
    ensures |Flat(r)| == if e in Flat(t) then |Flat(t)| - 1 else |Flat(t)|
  {
    match Locate(t, e)
    case None => t
    case Some(c) =>
      RemoveAtValid(t, c);
      FlatAscending(t);
      RemoveIndexMembers(Flat(t), Index(t, c));
      RemoveAt(t, c)
  }

  /** Erasing by key the edge under a position is erasing at that position. */
  lemma RemoveEdgeAt(t: Table, c: Cursor)
    requires ValidTable(t) && IsPos(t, c)
    ensures RemoveEdge(t, Deref(t, c)) == RemoveAt(t, c)
  {
    var l := Locate(t, Deref(t, c));
    PosOfEdgeUnique(t, l.value, c);
  }

  /** Erasing the only edge of the smallest node empties the map's first edge set, where
      the written begin can no longer rest. */
  lemma EraseOnlyEdgeOfFirstNode(t: Table, e: Edge)
    requires ValidTable(t) && |t| > 0 && t[0].edges == [e]
    ensures |RemoveEdge(t, e)| == |t| && RemoveEdge(t, e)[0].edges == []
    ensures !ValidCursor(RemoveEdge(t, e), AsWrittenBegin(RemoveEdge(t, e)))
  {
    var c := Cursor(0, 0);
    assert Deref(t, c) == e;
    RemoveEdgeAt(t, c);
  }

  /** After erasing src -> dst with weight w, src and dst stay connected exactly when
      another weight links them. */
  lemma EraseDisconnects(t: Table, e: Edge)
    requires ValidTable(t)
    ensures Connected(RemoveEdge(t, e), e.src, e.dst) <==>
            exists w :: w != e.weight && Edge(e.src, e.dst, w) in Flat(t)
  {
    var r := RemoveEdge(t, e);
    if Connected(r, e.src, e.dst) {
      var f :| f in Flat(r) && f.src == e.src && f.dst == e.dst;
      assert f == Edge(e.src, e.dst, f.weight);
    }
    if exists w :: w != e.weight && Edge(e.src, e.dst, w) in Flat(t) {
      var w :| w != e.weight && Edge(e.src, e.dst, w) in Flat(t);
      assert Edge(e.src, e.dst, w) in Flat(r);
    }
  }
}
