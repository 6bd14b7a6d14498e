/** The graph object: its one field `edge_map_` and the operations of graph.h that read
    or change it. */
module Graphs {
  import opened Edges
  import opened Tables
  import opened Cursors
  import opened Iterators
  import opened Edits

  /** The error InsertEdge reports for an endpoint that is not a node. */
  datatype GraphError = NodeNotFound

  datatype Result<T> = Success(value: T) | Failure(error: GraphError)

  class Graph {
    /** edge_map_: node -> ordered set of its outgoing edges. */
    var entries: Table

    /** The map is well formed and every edge's destination is one of its nodes. */
    ghost predicate Valid()
      reads this
    {
      ValidTable(entries) && Closed(entries)
    }

    /** The default constructor: a graph with no nodes. */
    constructor ()
      ensures Valid() && entries == []
    {
      entries := [];
    }

    /** InsertNode: true and a new edgeless node when the value is new; false and no
        change when it is already a node. */
    method InsertNode(v: int) returns (ok: bool)
      requires Valid()
      modifies this
      ensures Valid()
      ensures ok <==> v !in old(Nodes(entries))
      ensures entries == AddNode(old(entries), v)
    {
      ok := LookupNode(entries, v).None?;
      entries := AddNode(entries, v);
    }

    /** InsertEdge: NodeNotFound, and no change, when an endpoint is not a node;
        otherwise true when the triple is new and false when it is already stored. */
    method InsertEdge(src: int, dst: int, w: int) returns (r: Result<bool>)
      requires Valid()
      modifies this
      ensures Valid()
      ensures r.Failure? <==> src !in old(Nodes(entries)) || dst !in old(Nodes(entries))
      ensures r.Failure? ==> entries == old(entries)
      ensures r.Success? ==> (r.value <==> Edge(src, dst, w) !in old(Flat(entries)))
      ensures r.Success? ==> entries == AddEdge(old(entries), Edge(src, dst, w))
    {
      if LookupNode(entries, src).None? || LookupNode(entries, dst).None? {
        return Failure(NodeNotFound);
      }
      var e := Edge(src, dst, w);
      r := Success(Locate(entries, e).None?);
      entries := AddEdge(entries, e);
    }

    /** IsNode: the value is a node. */
    function IsNode(v: int): (r: bool)
      reads this
      ensures r <==> v in Nodes(entries)
    {
      LookupNode(entries, v).Some?
    }

    /** IsConnected: NodeNotFound when either value is not a node; otherwise whether
        some edge src -> dst, of any weight, is stored. */
    function IsConnected(src: int, dst: int): (r: Result<bool>)
      reads this
      requires Valid()
      ensures r.Failure? <==> src !in Nodes(entries) || dst !in Nodes(entries)
      ensures r.Success? ==> (r.value <==> Connected(entries, src, dst))
    {
      match LookupNode(entries, src)
      case None => Failure(NodeNotFound)
      case Some(o) =>
        if LookupNode(entries, dst).None? then Failure(NodeNotFound)
        else
          ConnectedInHomeEntry(entries, o, src, dst);
          Success(HasEdgeTo(entries[o].edges, dst))
    }

    /** GetNodes: every node exactly once, ascending by NodeCmp. */
    function GetNodes(): (r: seq<int>)
      reads this
      requires Valid()
      ensures |r| == |NodeSet(entries)|
      ensures forall i :: 0 <= i < |r| ==> r[i] in NodeSet(entries)
      ensures forall i, j :: 0 <= i < j < |r| ==> NodeLess(r[i], r[j])
    {
      NodesAscending(entries);
      NodeSetSize(entries);
      Nodes(entries)
    }

    /** Clear: every node and edge is dropped. */
    method Clear()
      modifies this
      ensures Valid() && entries == []
    {
      entries := [];
    }

    /** IsEmpty: the graph has no nodes; then it has no edges and begin is end. */
    function IsEmpty(): (r: bool)
      reads this
      ensures r <==> forall v :: v !in Nodes(entries)
      ensures r ==> Flat(entries) == [] && Begin(entries) == End(entries)
    {
      HeadNodeMember(entries);
      |entries| == 0
    }

    /** NumNodes: the number of distinct nodes. */
    function NumNodes(): (n: nat)
      reads this
      requires Valid()
      ensures n == |NodeSet(entries)|
    {
      NodeSetSize(entries);
      |entries|
    }

    /** NumEdges: the sizes of the edge sets summed over the map, which is the number of
        edges an iteration visits. */
    method NumEdges() returns (n: nat)
      ensures n == |Flat(entries)|
    {
      n := 0;
      var i := 0;
      while i < |entries|
        invariant 0 <= i <= |entries|
        invariant n == Offset(entries, i)
      {
        OffsetStep(entries, i);
        n := n + |entries[i].edges|;
        i := i + 1;
      }
      OffsetEnd(entries);
    }

    /** find: a linear scan from begin; the position of the edge (src, dst, w) if it is
        stored, the end position otherwise. */
    method Find(src: int, dst: int, w: int) returns (c: Cursor)
      ensures ValidCursor(entries, c)
      ensures IsPos(entries, c) <==> Edge(src, dst, w) in Flat(entries)
      ensures IsPos(entries, c) ==> Deref(entries, c) == Edge(src, dst, w)
      ensures !IsPos(entries, c) ==> c == End(entries)
    {
      var e := Edge(src, dst, w);
      var end := new ConstIterator(entries, |entries|);
      var it := new ConstIterator.Copy(entries, Begin(entries));
      while !it.Equals(end)
        invariant it.table == entries && ValidCursor(entries, it.Pos())
        invariant end.Pos() == End(entries)
        invariant forall k :: 0 <= k < Index(entries, it.Pos()) ==> Flat(entries)[k] != e
        modifies it
        decreases |Flat(entries)| - Index(entries, it.Pos())
      {
        if it.Get() == e {
          return it.Pos();
        }
        it.Increment();
      }
      return end.Pos();
    }

    /** erase(src, dst, w): looks up src's entry, scans it for the dst and weight, and
        removes that one edge; false, with no change, when there is none. */
    method Erase(src: int, dst: int, w: int) returns (ok: bool)
      requires Valid()
      modifies this
      ensures Valid()
      ensures ok <==> Edge(src, dst, w) in old(Flat(entries))
      ensures entries == RemoveEdge(old(entries), Edge(src, dst, w))
    {
      var e := Edge(src, dst, w);
      EdgeSrcIsNode(entries, e);
      var home := LookupNode(entries, src);
      if home.None? {
        return false;
      }
      var o := home.value;
      var s := entries[o].edges;
      assert ValidEntry(entries[o]);
      var j := 0;
      while j < |s| && !(s[j].dst == dst && s[j].weight == w)
        invariant 0 <= j <= |s|
        invariant forall k :: 0 <= k < j ==> s[k] != e
      {
        j := j + 1;
      }
      NotInHomeEntry(entries, o, e);
      if j == |s| {
        return false;
      }
      assert s[j] == e;
      RemoveEdgeAt(entries, Cursor(o, j));
      entries := entries[o := Entry(entries[o].node, s[..j] + s[j + 1..])];
      ok := true;
    }

    /** erase(it): the end position is returned unchanged; otherwise the edge under the
        position is removed and the result stands on the edge that followed it, or is
        the end position when it was the last edge. */
    method EraseAt(c: Cursor) returns (r: Cursor)
      requires Valid() && ValidCursor(entries, c)
      modifies this
      ensures Valid() && ValidCursor(entries, r)
      ensures c == old(End(entries)) ==> entries == old(entries) && r == c
      ensures c != old(End(entries)) ==>
                entries == RemoveAt(old(entries), c) &&
                Index(entries, r) == old(Index(entries, c))
      ensures c != old(End(entries)) && old(Index(entries, c)) + 1 < old(|Flat(entries)|) ==>
                IsPos(entries, r) && Deref(entries, r) == old(Flat(entries)[Index(entries, c) + 1])
      ensures c != old(End(entries)) && old(Index(entries, c)) + 1 == old(|Flat(entries)|) ==>
                r == End(entries)
    {
      var t := entries;
      var end := new ConstIterator(entries, |entries|);
      var it := new ConstIterator.Copy(entries, c);
      if it.Equals(end) {
        return c;
      }
      var k := Index(t, c);
      var was := it.PostIncrement();
      var e := Deref(t, was);
      RemoveEdgeAt(t, c);
      RemoveAtShifts(t, c);
      if it.Equals(end) {
        CursorEqualIffSameIndex(t, it.Pos(), End(t));
        var _ := Erase(e.src, e.dst, e.weight);
        var last := new ConstIterator(entries, |entries|);
        return last.Pos();
      }
      CursorEqualIffSameIndex(t, it.Pos(), End(t));
      var next := it.Get();
      var _ := Erase(e.src, e.dst, e.weight);
      r := Find(next.src, next.dst, next.weight);
      PlaceOfEdge(entries, r, k);
    }

    /** operator==: the two maps are equal, which holds exactly when the graphs have
        the same nodes and the same edges. */
    function Equals(other: Graph): (r: bool)
      reads this, other
      requires Valid() && other.Valid()
      ensures r <==> SameContents(entries, other.entries)
    {
      SameContentsIffEqual(entries, other.entries);
      entries == other.entries
    }
  }
}
