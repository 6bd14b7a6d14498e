/** The graph's storage, `edge_map_`: an ordered map from node value to the ordered
    set of that node's outgoing edges, held as a sequence of entries ascending by node. */
module Tables {
  import opened Edges

  datatype Option<T> = None | Some(value: T)

  /** One map entry: a node and its outgoing edges, ascending by EdgeCmp. */
  datatype Entry = Entry(node: int, edges: seq<Edge>)

  type Table = seq<Entry>

  /** Every edge of an entry leaves that entry's node, and the edge set is ordered
      and free of duplicates by EdgeCmp. */
  predicate ValidEntry(en: Entry) {
    && Ascending(en.edges)
    && forall e :: e in en.edges ==> e.src == en.node
  }

  /** The map's keys ascend by NodeCmp (so each node has one entry) and every entry is valid. */
  predicate ValidTable(t: Table) {
    && (forall i, j :: 0 <= i < j < |t| ==> NodeLess(t[i].node, t[j].node))
    && (forall i :: 0 <= i < |t| ==> ValidEntry(t[i]))
  }

  lemma ValidTail(t: Table)
    requires ValidTable(t) && |t| > 0
    ensures ValidTable(t[1..])
  {
  }

  /** The flattened edge sequence: each entry's edges in turn, in map order. */
  function Flat(t: Table): seq<Edge> {
    if t == [] then [] else t[0].edges + Flat(t[1..])
  }

  lemma {:induction false} FlatAppend(a: Table, b: Table)
    ensures Flat(a + b) == Flat(a) + Flat(b)
  {
    if a == [] {
      assert a + b == b;
    } else {
      assert (a + b)[1..] == a[1..] + b;
      FlatAppend(a[1..], b);
    }
  }

  /** Entry `o` occupies one contiguous stretch of the flattened sequence. */
  lemma FlatSplit(t: Table, o: int)
    requires 0 <= o < |t|
    ensures Flat(t) == Flat(t[..o]) + t[o].edges + Flat(t[o + 1..])
  {
    assert t == t[..o] + t[o..];
    FlatAppend(t[..o], t[o..]);
    assert t[o..][1..] == t[o + 1..];
  }

  /** The number of edges held by the entries before entry `o`. */
  function Offset(t: Table, o: int): nat
    requires 0 <= o <= |t|
  {
    |Flat(t[..o])|
  }

  lemma OffsetStep(t: Table, o: int)
    requires 0 <= o < |t|
    ensures Offset(t, o + 1) == Offset(t, o) + |t[o].edges|
  {
    assert t[..o + 1] == t[..o] + [t[o]];
    FlatAppend(t[..o], [t[o]]);
    assert [t[o]][1..] == [];
  }

  lemma {:induction false} OffsetMono(t: Table, a: int, b: int)
    requires 0 <= a <= b <= |t|
    ensures Offset(t, a) <= Offset(t, b)
    decreases b - a
  {
    if a < b {
      OffsetStep(t, a);
      OffsetMono(t, a + 1, b);
    }
  }

  lemma OffsetEnd(t: Table)
    ensures Offset(t, |t|) == |Flat(t)|
  {
    assert t[..|t|] == t;
  }

  /** Edge `i` of entry `o` is element Offset(t, o) + i of the flattened sequence. */
  lemma FlatAt(t: Table, o: int, i: int)
    requires 0 <= o < |t| && 0 <= i < |t[o].edges|
    ensures Offset(t, o) + i < |Flat(t)|
    ensures Flat(t)[Offset(t, o) + i] == t[o].edges[i]
  {
    FlatSplit(t, o);
  }

  /** The flattened sequence holds exactly the edges stored in some entry. */
  lemma {:induction false} FlatMember(t: Table, e: Edge)
    ensures e in Flat(t) <==> exists o :: 0 <= o < |t| && e in t[o].edges
  {
    if t != [] {
      FlatMember(t[1..], e);
      if e in Flat(t[1..]) {
        var o :| 0 <= o < |t[1..]| && e in t[1..][o].edges;
        assert e in t[o + 1].edges;
      }
      if exists o :: 0 <= o < |t| && e in t[o].edges {
        var o :| 0 <= o < |t| && e in t[o].edges;
        if o > 0 {
          assert e in t[1..][o - 1].edges;
        }
      }
    }
  }

  /** Every stored edge lives in the entry of its own source node. */
  lemma EdgeHome(t: Table, e: Edge) returns (o: nat)
    requires ValidTable(t) && e in Flat(t)
    ensures o < |t| && t[o].node == e.src && e in t[o].edges
  {
    FlatMember(t, e);
    o :| 0 <= o < |t| && e in t[o].edges;
  }

  /** Removing the first entry removes exactly the edges leaving its node. */
  lemma FlatTail(t: Table, e: Edge)
    requires ValidTable(t) && |t| > 0
    ensures e in Flat(t[1..]) <==> e in Flat(t) && e.src != t[0].node
    ensures e in Flat(t[1..]) ==> NodeLess(t[0].node, e.src)
  {
    assert Flat(t) == t[0].edges + Flat(t[1..]);
    ValidTail(t);
    if e in Flat(t[1..]) {
      var o := EdgeHome(t[1..], e);
      assert NodeLess(t[0].node, t[o + 1].node);
    }
  }

  /** Under a valid table the flattened sequence is strictly ascending by EdgeCmp. */
  lemma {:induction false} FlatAscending(t: Table)
    requires ValidTable(t)
    ensures Ascending(Flat(t))
  {
    if t != [] {
      ValidTail(t);
      FlatAscending(t[1..]);
      forall x, y | x in t[0].edges && y in Flat(t[1..])
        ensures EdgeLess(x, y)
      {
        FlatTail(t, y);
        assert ValidEntry(t[0]);
      }
      AscendingConcat(t[0].edges, Flat(t[1..]));
    }
  }

  /** GetNodes: the node values in map order. */
  function Nodes(t: Table): (r: seq<int>)
    ensures |r| == |t|
    ensures forall i :: 0 <= i < |t| ==> r[i] == t[i].node
  {
    seq(|t|, i requires 0 <= i < |t| => t[i].node)
  }

  lemma NodesCons(en: Entry, t: Table)
    ensures Nodes([en] + t) == [en.node] + Nodes(t)
  {
  }

  /** Under a valid table GetNodes returns the nodes strictly ascending (so without repeats). */
  lemma NodesAscending(t: Table)
    requires ValidTable(t)
    ensures forall i, j :: 0 <= i < j < |t| ==> NodeLess(Nodes(t)[i], Nodes(t)[j])
  {
  }

  /** Every stored edge leads to a node of the map: no edge's dst_ refers to a value
      that is not a node. */
  ghost predicate Closed(t: Table) {
    forall e :: e in Flat(t) ==> e.dst in Nodes(t)
  }

  /** The set of node values. */
  ghost function NodeSet(t: Table): set<int> {
    set v | v in Nodes(t)
  }

  lemma NodesTail(t: Table, v: int)
    requires ValidTable(t) && |t| > 0
    ensures v in Nodes(t[1..]) <==> v in Nodes(t) && v != t[0].node
  {
    if v in Nodes(t[1..]) {
      var i :| 0 <= i < |t| - 1 && Nodes(t[1..])[i] == v;
      assert Nodes(t)[i + 1] == v;
      assert NodeLess(t[0].node, t[i + 1].node);
    }
    if v in Nodes(t) && v != t[0].node {
      var i :| 0 <= i < |t| && Nodes(t)[i] == v;
      assert Nodes(t[1..])[i - 1] == v;
    }
  }

  /** The number of distinct nodes equals the number of map entries. */
  lemma {:induction false} NodeSetSize(t: Table)
    requires ValidTable(t)
    ensures |NodeSet(t)| == |t|
  {
    if t == [] {
      assert NodeSet(t) == {};
    } else {
      ValidTail(t);
      NodeSetSize(t[1..]);
      forall v
        ensures v in NodeSet(t) <==> v in NodeSet(t[1..]) + {t[0].node}
      {
        NodesTail(t, v);
      }
      assert NodeSet(t) == NodeSet(t[1..]) + {t[0].node};
      NodesTail(t, t[0].node);
    }
  }

  /** std::map::find on the node key: the index of the node's entry, if it has one. */
  function LookupNode(t: Table, v: int): (r: Option<nat>)
    ensures r.Some? ==> r.value < |t| && t[r.value].node == v
    ensures r.None? <==> v !in Nodes(t)
  {
    if t == [] then None
    else if t[0].node == v then Some(0)
    else
      match LookupNode(t[1..], v)
      case None =>
        assert forall i :: 1 <= i < |t| ==> t[i].node == Nodes(t[1..])[i - 1];
        None
      case Some(k) => Some(k + 1)
  }

  /** A valid table has at most one entry per node. */
  lemma NodeIndexUnique(t: Table, i: int, j: int)
    requires ValidTable(t) && 0 <= i < |t| && 0 <= j < |t| && t[i].node == t[j].node
    ensures i == j
  {
  }

  lemma HeadNodeIsLeast(t: Table, v: int)
    requires ValidTable(t) && v in Nodes(t)
    ensures |t| > 0 && (t[0].node == v || NodeLess(t[0].node, v))
  {
    var i :| 0 <= i < |t| && Nodes(t)[i] == v;
    assert i > 0 ==> NodeLess(t[0].node, t[i].node);
  }

  lemma HeadNodeMember(t: Table)
    ensures |t| > 0 ==> t[0].node in Nodes(t)
  {
    if |t| > 0 {
      assert Nodes(t)[0] == t[0].node;
    }
  }

  /** A valid table is determined by its node set and edge set: the representation
      is canonical, so comparing two maps compares the graphs' contents. */
  lemma {:induction false} Canonical(t1: Table, t2: Table)
    requires ValidTable(t1) && ValidTable(t2)
    requires forall v :: v in Nodes(t1) <==> v in Nodes(t2)
    requires forall e :: e in Flat(t1) <==> e in Flat(t2)
    ensures t1 == t2
    decreases |t1|
  {
    HeadNodeMember(t1);
    HeadNodeMember(t2);
    if |t1| > 0 && |t2| > 0 {
      HeadNodeIsLeast(t1, t2[0].node);
      HeadNodeIsLeast(t2, t1[0].node);
      var a := t1[0].node;
      assert t2[0].node == a;
      forall e
        ensures e in t1[0].edges <==> e in t2[0].edges
      {
        SameHomeEntry(t1, t2, e);
        SameHomeEntry(t2, t1, e);
      }
      AscendingUnique(t1[0].edges, t2[0].edges);
      ValidTail(t1);
      ValidTail(t2);
      forall v
        ensures v in Nodes(t1[1..]) <==> v in Nodes(t2[1..])
      {
        NodesTail(t1, v);
        NodesTail(t2, v);
      }
      forall e
        ensures e in Flat(t1[1..]) <==> e in Flat(t2[1..])
      {
        FlatTail(t1, e);
        FlatTail(t2, e);
      }
      Canonical(t1[1..], t2[1..]);
      assert t1 == [t1[0]] + t1[1..] && t2 == [t2[0]] + t2[1..];
    }
  }

  /** The two maps hold the same nodes and the same edges. */
  ghost predicate SameContents(t1: Table, t2: Table) {
    && (forall v :: v in Nodes(t1) <==> v in Nodes(t2))
    && (forall e :: e in Flat(t1) <==> e in Flat(t2))
  }

  /** Two valid maps are equal exactly when they hold the same nodes and the same edges. */
  lemma SameContentsIffEqual(t1: Table, t2: Table)
    requires ValidTable(t1) && ValidTable(t2)
    ensures t1 == t2 <==> SameContents(t1, t2)
  {
    if SameContents(t1, t2) {
      Canonical(t1, t2);
    }
  }

  lemma SameHomeEntry(t1: Table, t2: Table, e: Edge)
    requires ValidTable(t1) && ValidTable(t2) && |t1| > 0 && |t2| > 0
    requires t1[0].node == t2[0].node
    requires forall f :: f in Flat(t1) <==> f in Flat(t2)
    ensures e in t1[0].edges ==> e in t2[0].edges
  {
    if e in t1[0].edges {
      assert e in Flat(t1);
      var o := EdgeHome(t2, e);
      NodeIndexUnique(t2, o, 0);
    }
  }
}
