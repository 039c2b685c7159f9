/**
 * The graph object: its vertices and declared edges, the list of edges
 * attached to each vertex (filled in once, by the constructor), and the
 * side each vertex is on.  Vertex v stands for the vertex object with
 * identifier ids[v]; the edge back-references of the edge objects are
 * the lookups IndexOf(ids, leftId) and IndexOf(ids, rightId).
 */
module Graphs {
  import opened GraphModel
  import opened CutCost
  import opened Gain

  class Graph {
    /** The identifier of every vertex, in vertex order. */
    const ids: seq<int>
    /** The declared edges, in input order. */
    const edges: seq<Edge>
    /** For every vertex, the numbers of the edges attached to it. */
    var adj: seq<seq<nat>>
    /** The side every vertex is on. */
    const labels: array<Label>

    function Shape(): Topology
    {
      Topology(ids, edges)
    }

    /** The edge lists are those graph construction builds, and every vertex has a label. */
    ghost predicate Valid()
      reads this
    {
      WellFormed(Shape()) && labels.Length == |ids| && adj == Wired(Shape())
    }

    /**
     * Attaches every declared edge to its left endpoint and then to its
     * right endpoint.  Every vertex starts on side A; the partitioner sets
     * all labels before it reads any.
     */
    constructor (ids: seq<int>, edges: seq<Edge>)
      requires WellFormed(Topology(ids, edges))
      ensures Valid() && this.ids == ids && this.edges == edges && fresh(labels)
    {
      this.ids := ids;
      this.edges := edges;
      adj := seq(|ids|, _ => []);
      labels := new Label[|ids|](_ => A);
      new;
      var m := 0;
      while m < |edges|
        invariant 0 <= m <= |edges|
        invariant adj == Wiring(Shape(), m)
      {
        var left := IndexOf(ids, edges[m].leftId);
        AddEdge(left, m);
        var right := IndexOf(ids, edges[m].rightId);
        AddEdge(right, m);
        m := m + 1;
      }
    }

    /**
     * Offers edge k to vertex v: if v already stores an edge declared in
     * the opposite direction, nothing changes; otherwise k is appended.
     */
    method AddEdge(v: nat, k: nat)
      requires v < |adj| && k < |edges| && Bounded(adj, k + 1)
      modifies this
      ensures adj == Offer(Shape(), old(adj), v, k)
    {
      var list := adj[v];
      var i := 0;
      while i < |list|
        invariant 0 <= i <= |list|
        invariant forall j :: 0 <= j < i ==> !IsReverse(edges[list[j]], edges[k])
      {
        var present := edges[list[i]];
        if present.leftId == edges[k].rightId && present.rightId == edges[k].leftId {
          assert HasReverse(Shape(), list, k);
          assert adj[v := list] == adj;
          return;
        }
        i := i + 1;
      }
      adj := adj[v := list + [k]];
    }

    /** The D-value of vertex v: +1 for each attached edge whose far end is on the other side, -1 for each on its own side. */
    method DValue(v: nat) returns (d: int)
      requires Valid() && v < |ids|
      ensures d == DValueOf(Shape(), adj, labels[..], v)
    {
      ghost var t, L := Shape(), labels[..];
      var list := adj[v];
      assert IncidentTo(t, v, list);
      d := 0;
      var i := 0;
      while i < |list|
        invariant 0 <= i <= |list|
        invariant d == DSum(t, L, v, list[..i])
      {
        var e := edges[list[i]];
        var other: nat;
        if e.leftId == ids[v] {
          other := IndexOf(ids, e.rightId);
        } else {
          // the edge is attached to v, so its right endpoint is v
          other := IndexOf(ids, e.leftId);
        }
        assert other == OtherVertex(t, v, list[i]);
        DSumStep(t, L, v, list, i);
        if labels[other] != labels[v] {
          d := d + 1;  // external edge
        } else {
          d := d - 1;  // internal edge
        }
        i := i + 1;
      }
      assert list[..|list|] == list;
    }

    /** The cut cost: the number of declared edges whose endpoints are on different sides. */
    method PartitionCost() returns (cost: nat)
      requires Valid()
      ensures cost == Cut(Shape(), labels[..])
    {
      ghost var t, L := Shape(), labels[..];
      cost := 0;
      var k := 0;
      while k < |edges|
        invariant 0 <= k <= |edges|
        invariant cost == CutUpTo(t, L, k)
      {
        var e := edges[k];
        if labels[IndexOf(ids, e.leftId)] != labels[IndexOf(ids, e.rightId)] {
          cost := cost + 1;
        }
        k := k + 1;
      }
    }
  }
}
