/** Edges of the multigraph and the two orderings its containers are keyed by. */
module Edges {

  /** An edge is the value triple (src, dst, weight); node and weight types are `int`. */
  datatype Edge = Edge(src: int, dst: int, weight: int)

  /** NodeCmp: nodes are ordered by their values. */
  predicate NodeLess(a: int, b: int) {
    a < b
  }

  /** EdgeCmp: lexicographic order on (src, dst, weight). Edges of different sources
      are ordered as NodeCmp orders the sources, and no edge is below itself. */
  function EdgeLess(a: Edge, b: Edge): (r: bool)
    ensures a.src != b.src ==> (r <==> NodeLess(a.src, b.src))
    ensures r ==> a != b
  {
    if a.src == b.src then
      if a.dst == b.dst then a.weight < b.weight else a.dst < b.dst
    else
      a.src < b.src
  }

  /** EdgeCmp is a strict total order whose equivalence is equality of the triple:
      two edges occupy the same slot of a set keyed by it iff they are equal. */
  lemma EdgeLessIsStrictTotalOrder(a: Edge, b: Edge, c: Edge)
    ensures !EdgeLess(a, a)
    ensures EdgeLess(a, b) ==> !EdgeLess(b, a)
    ensures EdgeLess(a, b) && EdgeLess(b, c) ==> EdgeLess(a, c)
    ensures !EdgeLess(a, b) && !EdgeLess(b, a) <==> a == b
  {
  }

  /** A sequence of edges in strictly ascending EdgeCmp order. */
  predicate Ascending(s: seq<Edge>) {
    forall i, j :: 0 <= i < j < |s| ==> EdgeLess(s[i], s[j])
  }

  /** An ascending sequence holds each edge at exactly one index. */
  lemma AscendingDistinct(s: seq<Edge>, i: int, j: int)
    requires Ascending(s)
    requires 0 <= i < |s| && 0 <= j < |s| && s[i] == s[j]
    ensures i == j
  {
  }

  /** Concatenating two ascending sequences, every element of the first below every
      element of the second, is ascending. */
  lemma AscendingConcat(a: seq<Edge>, b: seq<Edge>)
    requires Ascending(a) && Ascending(b)
    requires forall x, y :: x in a && y in b ==> EdgeLess(x, y)
    ensures Ascending(a + b)
  {
    var s := a + b;
    forall i, j | 0 <= i < j < |s|
      ensures EdgeLess(s[i], s[j])
    {
      if j < |a| {
        assert s[i] == a[i] && s[j] == a[j];
      } else if i >= |a| {
        assert s[i] == b[i - |a|] && s[j] == b[j - |a|];
      } else {
        assert s[i] in a && s[j] in b;
      }
    }
  }

  /** A set ordered by EdgeCmp has exactly one ascending listing: two ascending
      sequences with the same elements are equal. */
  lemma {:induction false} AscendingUnique(s1: seq<Edge>, s2: seq<Edge>)
    requires Ascending(s1) && Ascending(s2)
    requires forall e :: e in s1 <==> e in s2
    ensures s1 == s2
  {
    if |s1| == 0 {
      assert s2 == [] by { MemberOfNonEmpty(s2); }
    } else if |s2| == 0 {
      MemberOfNonEmpty(s1);
    } else {
      assert s1[0] in s2;
      var j :| 0 <= j < |s2| && s2[j] == s1[0];
      assert s2[0] in s1;
      var k :| 0 <= k < |s1| && s1[k] == s2[0];
      HeadIsLeast(s2, j);
      HeadIsLeast(s1, k);
      EdgeLessIsStrictTotalOrder(s1[0], s2[0], s1[0]);
      assert s1[0] == s2[0];
      forall e
        ensures e in s1[1..] <==> e in s2[1..]
      {
        if e in s1[1..] {
          var i :| 1 <= i < |s1| && s1[i] == e;
          AscendingDistinctHead(s1, i);
          assert e in s2;
        }
        if e in s2[1..] {
          var i :| 1 <= i < |s2| && s2[i] == e;
          AscendingDistinctHead(s2, i);
          assert e in s1;
        }
      }
      AscendingUnique(s1[1..], s2[1..]);
      assert s1 == [s1[0]] + s1[1..] && s2 == [s2[0]] + s2[1..];
    }
  }

  lemma MemberOfNonEmpty(s: seq<Edge>)
    ensures |s| > 0 ==> s[0] in s
  {
  }

  /** The head of an ascending sequence is its least element. */
  lemma HeadIsLeast(s: seq<Edge>, i: int)
    requires Ascending(s) && 0 <= i < |s|
    ensures i == 0 || EdgeLess(s[0], s[i])
  {
  }

  lemma AscendingDistinctHead(s: seq<Edge>, i: int)
    requires Ascending(s) && 0 < i < |s|
    ensures s[i] != s[0] && s[i] in s[1..]
  {
    assert EdgeLess(s[0], s[i]);
    assert s[i] == s[1..][i - 1];
  }

  /** Removing one element keeps a sequence ascending. */
  lemma AscendingRemove(s: seq<Edge>, i: int)
    requires Ascending(s) && 0 <= i < |s|
    ensures Ascending(s[..i] + s[i + 1..])
  {
    var r := s[..i] + s[i + 1..];
    forall a, b | 0 <= a < b < |r|
      ensures EdgeLess(r[a], r[b])
    {
      var a' := if a < i then a else a + 1;
      var b' := if b < i then b else b + 1;
      assert r[a] == s[a'] && r[b] == s[b'];
    }
  }

  /** Removing the element at index k of an ascending sequence removes exactly that edge. */
  lemma RemoveIndexMembers(s: seq<Edge>, k: int)
    requires Ascending(s) && 0 <= k < |s|
    ensures forall f :: f in s[..k] + s[k + 1..] <==> f in s && f != s[k]
  {
    forall f
      ensures f in s[..k] + s[k + 1..] <==> f in s && f != s[k]
    {
      if f in s[..k] + s[k + 1..] {
        var i :| 0 <= i < |s| - 1 && (s[..k] + s[k + 1..])[i] == f;
        var i' := if i < k then i else i + 1;
        assert s[i'] == f && i' != k;
        assert i' < k ==> EdgeLess(s[i'], s[k]);
        assert k < i' ==> EdgeLess(s[k], s[i']);
      }
      if f in s && f != s[k] {
        var i :| 0 <= i < |s| && s[i] == f;
        if i < k {
          assert (s[..k] + s[k + 1..])[i] == f;
        } else {
          assert (s[..k] + s[k + 1..])[i - 1] == f;
        }
      }
    }
  }
}
