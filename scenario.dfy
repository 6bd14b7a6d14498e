/** The sample graph of the graph's tests: six nodes and ten edges inserted in an
    arbitrary order, and the order in which an iteration visits them. */
module Scenario {
  import opened Edges
  import opened Tables
  import opened Cursors
  import opened Edits

  /** Nodes inserted one after another. */
  function InsertNodes(t: Table, vs: seq<int>): (r: Table)
    requires ValidTable(t)
    ensures ValidTable(r)
    ensures forall v :: v in Nodes(r) <==> v in Nodes(t) || v in vs
    ensures Flat(r) == Flat(t)
    ensures Closed(t) ==> Closed(r)
    decreases |vs|
  {
    if vs == [] then t
    else
      ConsMembers(vs);
      InsertNodes(AddNode(t, vs[0]), vs[1..])
  }

  lemma ConsMembers<T>(s: seq<T>)
    requires |s| > 0
    ensures forall x :: x in s <==> x == s[0] || x in s[1..]
  {
    assert s == [s[0]] + s[1..];
  }

  /** Edges inserted one after another, each between two existing nodes. */
  function InsertEdges(t: Table, es: seq<Edge>): (r: Table)
    requires ValidTable(t)
    requires forall e :: e in es ==> e.src in Nodes(t) && e.dst in Nodes(t)
    ensures ValidTable(r) && Nodes(r) == Nodes(t)
    ensures Closed(t) ==> Closed(r)
    ensures forall e :: e in Flat(r) <==> e in Flat(t) || e in es
    decreases |es|
  {
    if es == [] then t
    else
      ConsMembers(es);
      InsertEdges(AddEdge(t, es[0]), es[1..])
  }

  /** One tuple of the tuple range constructor: both endpoints are inserted as nodes,
      then the edge is inserted. */
  function InsertTuple(t: Table, e: Edge): (r: Table)
    requires ValidTable(t)
    ensures ValidTable(r)
    ensures forall v :: v in Nodes(r) <==> v in Nodes(t) || v == e.src || v == e.dst
    ensures forall f :: f in Flat(r) <==> f in Flat(t) || f == e
    ensures Closed(t) ==> Closed(r)
  {
    var t1 := AddNode(t, e.src);
    var t2 := AddNode(t1, e.dst);
    AddEdge(t2, e)
  }

  /** The values the tuples name as source or destination. */
  ghost function Endpoints(es: seq<Edge>): set<int> {
    (set e | e in es :: e.src) + (set e | e in es :: e.dst)
  }

  lemma EndpointsCons(es: seq<Edge>)
    requires |es| > 0
    ensures Endpoints(es) == {es[0].src, es[0].dst} + Endpoints(es[1..])
  {
    ConsMembers(es);
  }

  /** The tuple range constructor: the tuples inserted in turn, each endpoint becoming
      a node before its edge is inserted. */
  function InsertTuples(t: Table, es: seq<Edge>): (r: Table)
    requires ValidTable(t)
    ensures ValidTable(r)
    ensures forall v :: v in Nodes(r) <==> v in Nodes(t) || v in Endpoints(es)
    ensures forall e :: e in Flat(r) <==> e in Flat(t) || e in es
    ensures Closed(t) ==> Closed(r)
    decreases |es|
  {
    if es == [] then t
    else
      ConsMembers(es);
      EndpointsCons(es);
      InsertTuples(InsertTuple(t, es[0]), es[1..])
  }

  /** The ten edges in the order the tests insert them. */
  function SampleInserts(): seq<Edge> {
    [Edge(1, 5, -1), Edge(4, 1, -4), Edge(4, 5, 3), Edge(2, 4, 2), Edge(2, 1, 1),
     Edge(5, 2, 7), Edge(3, 2, 2), Edge(6, 3, 10), Edge(3, 6, -8), Edge(6, 2, 5)]
  }

  function SampleNodes(): seq<int> {
    [1, 2, 3, 4, 5, 6]
  }

  lemma SampleInsertsBetweenNodes()
    ensures forall e :: e in SampleInserts() ==> e.src in SampleNodes() && e.dst in SampleNodes()
  {
    var es := SampleInserts();
    forall e | e in es ensures e.src in SampleNodes() && e.dst in SampleNodes() {
      var i :| 0 <= i < |es| && es[i] == e;
      assert e.src == es[i].src && e.dst == es[i].dst;
    }
  }

  /** A graph built by inserting the given nodes, then the given edges. */
  function Build(nodes: seq<int>, es: seq<Edge>): (t: Table)
    requires forall e :: e in es ==> e.src in nodes && e.dst in nodes
    ensures ValidTable(t) && Closed(t)
    ensures forall v :: v in Nodes(t) <==> v in nodes
    ensures forall e :: e in Flat(t) <==> e in es
  {
    var t := InsertNodes([], nodes);
    InsertEdges(t, es)
  }

  /** The map the sample graph is stored as. */
  function SampleTable(): Table {
    [ Entry(1, [Edge(1, 5, -1)]),
      Entry(2, [Edge(2, 1, 1), Edge(2, 4, 2)]),
      Entry(3, [Edge(3, 2, 2), Edge(3, 6, -8)]),
      Entry(4, [Edge(4, 1, -4), Edge(4, 5, 3)]),
      Entry(5, [Edge(5, 2, 7)]),
      Entry(6, [Edge(6, 2, 5), Edge(6, 3, 10)]) ]
  }

  /** The edges ascending by (src, dst, weight). */
  function SampleOrder(): seq<Edge> {
    [Edge(1, 5, -1), Edge(2, 1, 1), Edge(2, 4, 2), Edge(3, 2, 2), Edge(3, 6, -8),
     Edge(4, 1, -4), Edge(4, 5, 3), Edge(5, 2, 7), Edge(6, 2, 5), Edge(6, 3, 10)]
  }

  lemma SampleTableValid()
    ensures ValidTable(SampleTable())
  {
    var t := SampleTable();
    forall i | 0 <= i < |t| ensures t[i].node == i + 1 && ValidEntry(t[i]) {
      if i == 0 || i == 4 {
        SingleEntryValid(t[i].node, t[i].edges[0]);
      } else {
        PairEntryValid(t[i].node, t[i].edges[0], t[i].edges[1]);
      }
    }
  }

  lemma SingleEntryValid(v: int, e: Edge)
    requires e.src == v
    ensures ValidEntry(Entry(v, [e]))
  {
  }

  lemma PairEntryValid(v: int, e1: Edge, e2: Edge)
    requires e1.src == v && e2.src == v && EdgeLess(e1, e2)
    ensures ValidEntry(Entry(v, [e1, e2]))
  {
  }

  lemma SampleTableNodes()
    ensures Nodes(SampleTable()) == SampleNodes()
  {
    var n := Nodes(SampleTable());
    assert n[0] == 1 && n[1] == 2 && n[2] == 3 && n[3] == 4 && n[4] == 5 && n[5] == 6;
  }

  lemma SampleTableFlat()
    ensures Flat(SampleTable()) == SampleOrder()
  {
    var t := SampleTable();
    assert Flat(t[5..]) == t[5].edges;
    assert Flat(t[4..]) == t[4].edges + Flat(t[5..]);
    assert Flat(t[3..]) == t[3].edges + Flat(t[4..]);
    assert Flat(t[2..]) == t[2].edges + Flat(t[3..]);
    assert Flat(t[1..]) == t[1].edges + Flat(t[2..]);
  }

  /** The ten inserted edges are the ten listed in order. */
  lemma SampleSameEdges()
    ensures forall e :: e in SampleInserts() <==> e in SampleOrder()
  {
    var ins, ord := SampleInserts(), SampleOrder();
    forall e | e in ins ensures e in ord {
      var i :| 0 <= i < |ins| && ins[i] == e;
      assert ins[i] in ord;
    }
    forall e | e in ord ensures e in ins {
      var i :| 0 <= i < |ord| && ord[i] == e;
      assert ord[i] in ins;
    }
  }

  lemma SampleNodesRange()
    ensures forall v :: v in SampleNodes() <==> 1 <= v <= 6
  {
    var n := SampleNodes();
    forall v | 1 <= v <= 6 ensures v in n {
      assert n[v - 1] == v;
    }
  }

  /** In whatever order nodes 1..6 and the tests' ten edges are inserted, the graph is
      stored as SampleTable. */
  lemma AnyOrderGivesSampleTable(nodes: seq<int>, es: seq<Edge>)
    requires forall e :: e in es ==> e.src in nodes && e.dst in nodes
    requires forall v :: v in nodes <==> 1 <= v <= 6
    requires forall e :: e in es <==> e in SampleOrder()
    ensures Build(nodes, es) == SampleTable()
  {
    var g, t := Build(nodes, es), SampleTable();
    SampleTableValid();
    SampleTableFlat();
    SampleTableNodes();
    SampleNodesRange();
    assert forall v :: v in Nodes(g) <==> v in Nodes(t);
    assert forall e :: e in Flat(g) <==> e in Flat(t);
    Canonical(g, t);
  }

  /** In whatever order they are inserted, the nodes come back ascending and a forward
      iteration visits the edges ascending by (src, dst, weight). */
  lemma SampleTraversal(nodes: seq<int>, es: seq<Edge>)
    requires forall e :: e in es ==> e.src in nodes && e.dst in nodes
    requires forall v :: v in nodes <==> 1 <= v <= 6
    requires forall e :: e in es <==> e in SampleOrder()
    ensures Nodes(Build(nodes, es)) == [1, 2, 3, 4, 5, 6]
    ensures Forward(Build(nodes, es), Begin(Build(nodes, es))) == SampleOrder()
  {
    AnyOrderGivesSampleTable(nodes, es);
    SampleTableFlat();
    SampleTableNodes();
    ForwardTraversal(Build(nodes, es));
  }

  /** The tests' own insertion order meets the conditions above. */
  lemma TestsInsertSample()
    ensures forall e :: e in SampleInserts() ==> e.src in SampleNodes() && e.dst in SampleNodes()
    ensures forall v :: v in SampleNodes() <==> 1 <= v <= 6
    ensures forall e :: e in SampleInserts() <==> e in SampleOrder()
  {
    SampleInsertsBetweenNodes();
    SampleNodesRange();
    SampleSameEdges();
  }

  /** On the sample graph begin stands on (1,5,-1), the only edge of node 1, and the
      edge after it is (2,1,1). */
  lemma SampleBegin()
    ensures var t := SampleTable();
            IsPos(t, AsWrittenBegin(t)) && Deref(t, AsWrittenBegin(t)) == Edge(1, 5, -1)
            && IsPos(t, Succ(t, AsWrittenBegin(t))) && Deref(t, Succ(t, AsWrittenBegin(t))) == Edge(2, 1, 1)
  {
    var t := SampleTable();
    SampleTableFlat();
    var c := AsWrittenBegin(t);
    assert Index(t, c) == 0;
    assert Index(t, Succ(t, c)) == 1;
  }

  /** erase(begin()) on the sample graph erases (1,5,-1) and leaves node 1 with no
      edge, so the find for (2,1,1) that erase(it) then makes starts from a written
      begin resting on an empty set. */
  lemma EraseBeginOfSample()
    ensures ValidTable(SampleTable())
    ensures var r := RemoveEdge(SampleTable(), Edge(1, 5, -1));
            r[0].edges == [] && !ValidCursor(r, AsWrittenBegin(r))
  {
    SampleTableValid();
    EraseOnlyEdgeOfFirstNode(SampleTable(), Edge(1, 5, -1));
  }
}
