/**
 * The graph the Kernighan-Lin heuristic works on.  Vertices are numbered
 * 0..n-1 in input order and vertex v carries the identifier ids[v]; edges
 * are numbered 0..m-1 in input order.  Every vertex keeps the list of the
 * numbers of the edges attached to it: an edge number stands for the
 * identity of an edge object, so two declarations of the same pair of
 * vertices are two different edges.
 */
module GraphModel {

  /** The two sides of the bisection. */
  datatype Label = A | B

  /** The other side. */
  function Opposite(l: Label): (r: Label)
    ensures r != l
  {
    if l == A then B else A
  }

  /** An edge as declared: the identifiers of its endpoints, in input order. */
  datatype Edge = Edge(leftId: int, rightId: int)

  /** The vertex identifiers (vertex v is ids[v]) and the declared edges. */
  datatype Topology = Topology(ids: seq<int>, edges: seq<Edge>)

  predicate DistinctIds(ids: seq<int>)
  {
    forall i, j :: 0 <= i < j < |ids| ==> ids[i] != ids[j]
  }

  /** What graph construction assumes: distinct identifiers, and every endpoint is a vertex. */
  predicate WellFormed(t: Topology)
  {
    && DistinctIds(t.ids)
    && forall k :: 0 <= k < |t.edges| ==> t.edges[k].leftId in t.ids && t.edges[k].rightId in t.ids
  }

  /** The vertex with identifier id (the lookup table built by graph construction). */
  function IndexOf(ids: seq<int>, id: int): (v: nat)
    requires id in ids
    ensures v < |ids| && ids[v] == id
    ensures forall w :: 0 <= w < v ==> ids[w] != id
  {
    if ids[0] == id then 0 else 1 + IndexOf(ids[1..], id)
  }

  predicate Touches(e: Edge, id: int)
  {
    e.leftId == id || e.rightId == id
  }

  /** The endpoint seen from id: the right one when id is the left one, the left one otherwise. */
  function Other(e: Edge, id: int): (o: int)
    requires Touches(e, id)
    ensures Touches(e, o)
    ensures o == id <==> e.leftId == e.rightId
  {
    if e.leftId == id then e.rightId else e.leftId
  }

  /** p declares the pair of e in the opposite direction. */
  predicate IsReverse(p: Edge, e: Edge)
  {
    p.leftId == e.rightId && p.rightId == e.leftId
  }

  predicate EdgeIndices(t: Topology, list: seq<nat>)
  {
    forall j :: 0 <= j < |list| ==> list[j] < |t.edges|
  }

  /** Some edge of list declares edge k in the opposite direction. */
  predicate HasReverse(t: Topology, list: seq<nat>, k: nat)
    requires k < |t.edges| && EdgeIndices(t, list)
  {
    exists j :: 0 <= j < |list| && IsReverse(t.edges[list[j]], t.edges[k])
  }

  /** A vertex's edge list after it is offered edge k: dropped if a reverse twin is stored, appended otherwise. */
  function AddedEdge(t: Topology, list: seq<nat>, k: nat): seq<nat>
    requires k < |t.edges| && EdgeIndices(t, list)
  {
    if HasReverse(t, list, k) then list else list + [k]
  }

  /** Every list entry is below m. */
  ghost predicate Bounded(adj: seq<seq<nat>>, m: nat)
  {
    forall v, j :: 0 <= v < |adj| && 0 <= j < |adj[v]| ==> adj[v][j] < m
  }

  /** Vertex v is offered edge k (one call of the per-vertex edge insertion). */
  ghost function Offer(t: Topology, adj: seq<seq<nat>>, v: nat, k: nat): (r: seq<seq<nat>>)
    requires k < |t.edges| && v < |adj| && Bounded(adj, k + 1)
    ensures |r| == |adj| && Bounded(r, k + 1)
  {
    assert EdgeIndices(t, adj[v]);
    adj[v := AddedEdge(t, adj[v], k)]
  }

  /**
   * The edge lists after graph construction has processed the first m
   * edges: each edge is offered to its left endpoint, then to its right one.
   */
  ghost function Wiring(t: Topology, m: nat): (adj: seq<seq<nat>>)
    requires WellFormed(t) && m <= |t.edges|
    ensures |adj| == |t.ids| && Bounded(adj, m)
    decreases m
  {
    if m == 0 then seq(|t.ids|, _ => [])
    else
      var k := m - 1;
      var e := t.edges[k];
      Offer(t, Offer(t, Wiring(t, k), IndexOf(t.ids, e.leftId), k), IndexOf(t.ids, e.rightId), k)
  }


  /** Every entry of list is an edge touching vertex v. */
  predicate IncidentTo(t: Topology, v: nat, list: seq<nat>)
    requires v < |t.ids|
  {
    forall j :: 0 <= j < |list| ==> list[j] < |t.edges| && Touches(t.edges[list[j]], t.ids[v])
  }

  ghost predicate NoDup(s: seq<nat>)
  {
    forall i, j :: 0 <= i < j < |s| ==> s[i] != s[j]
  }

  /**
   * What every vertex's edge list satisfies: it holds edges touching the
   * vertex, each at most once, and an edge in one endpoint's list is in the
   * other endpoint's list too.
   */
  ghost predicate Wellwired(t: Topology, adj: seq<seq<nat>>)
    requires WellFormed(t)
  {
    && |adj| == |t.ids|
    && (forall v :: 0 <= v < |adj| ==> IncidentTo(t, v, adj[v]))
    && (forall v :: 0 <= v < |adj| ==> NoDup(adj[v]))
    && (forall v, w, k | 0 <= v < |adj| && 0 <= w < |adj| && k in adj[v] && k < |t.edges|
          :: Touches(t.edges[k], t.ids[w]) ==> k in adj[w])
  }

  /** Each list of adj is the list of prev, with edge k appended or not. */
  ghost predicate Extends(prev: seq<seq<nat>>, adj: seq<seq<nat>>, k: nat)
  {
    |adj| == |prev| && forall v :: 0 <= v < |adj| ==> adj[v] == prev[v] || adj[v] == prev[v] + [k]
  }

  /** Offering edge k to v appends k to the list of v unless it stores a reverse twin, and touches no other list. */
  lemma OfferShape(t: Topology, adj: seq<seq<nat>>, v: nat, k: nat)
    requires k < |t.edges| && v < |adj| && Bounded(adj, k + 1)
    ensures var r := Offer(t, adj, v, k);
      && Extends(adj, r, k)
      && (forall w :: 0 <= w < |r| && w != v ==> r[w] == adj[w])
      && (r[v] == adj[v] + [k] <==> !HasReverse(t, adj[v], k))
  {
  }

  /** How one step of graph construction changes the lists: only the endpoints of k gain k, and each does so unless it stores a reverse twin. */
  lemma WiringStep(t: Topology, m: nat)
    requires WellFormed(t) && 0 < m <= |t.edges|
    ensures var k := m - 1;
      var prev, adj := Wiring(t, m - 1), Wiring(t, m);
      var l, r := IndexOf(t.ids, t.edges[k].leftId), IndexOf(t.ids, t.edges[k].rightId);
      && Extends(prev, adj, k)
      && (forall v :: 0 <= v < |adj| && v != l && v != r ==> adj[v] == prev[v])
      && (adj[l] == prev[l] + [k] <==> !HasReverse(t, prev[l], k))
      && (adj[r] == prev[r] + [k] <==> (if l == r then !HasReverse(t, prev[l], k) else !HasReverse(t, prev[r], k)))
  {
    var k := m - 1;
    var prev := Wiring(t, k);
    var l := IndexOf(t.ids, t.edges[k].leftId);
    var r := IndexOf(t.ids, t.edges[k].rightId);
    assert Bounded(prev, k + 1);
    var mid := Offer(t, prev, l, k);
    OfferShape(t, prev, l, k);
    OfferShape(t, mid, r, k);
    if l == r && !HasReverse(t, prev[l], k) {
      assert t.edges[k].leftId == t.edges[k].rightId;
      assert mid[r][|prev[l]|] == k;
      assert HasReverse(t, mid[r], k);
    }
  }

  /** The edge lists of the constructed graph; they are well wired. */
  ghost function Wired(t: Topology): (adj: seq<seq<nat>>)
    requires WellFormed(t)
    ensures Wellwired(t, adj)
  {
    WiringWellwired(t, |t.edges|);
    Wiring(t, |t.edges|)
  }

  /** Graph construction keeps its lists well wired after every edge. */
  lemma {:induction false} WiringWellwired(t: Topology, m: nat)
    requires WellFormed(t) && m <= |t.edges|
    ensures Wellwired(t, Wiring(t, m))
  {
    if m > 0 {
      WiringWellwired(t, m - 1);
      WellwiredStep(t, m);
    }
  }

  lemma WellwiredStep(t: Topology, m: nat)
    requires WellFormed(t) && 0 < m <= |t.edges| && Wellwired(t, Wiring(t, m - 1))
    ensures Wellwired(t, Wiring(t, m))
  {
    var k := m - 1;
    var prev, adj := Wiring(t, k), Wiring(t, m);
    var l := IndexOf(t.ids, t.edges[k].leftId);
    var r := IndexOf(t.ids, t.edges[k].rightId);
    WiringStep(t, m);
    if l != r {
      if HasReverse(t, prev[l], k) {
        ReverseSeenByBoth(t, prev, k, l, r);
      }
      if HasReverse(t, prev[r], k) {
        ReverseSeenByBoth(t, prev, k, r, l);
      }
    }
    assert adj[l] == prev[l] + [k] <==> adj[r] == prev[r] + [k];
    ExtendedWellwired(t, prev, adj, k, l, r);
  }

  /** One construction step, stated on the lists alone, preserves well-wiring. */
  lemma ExtendedWellwired(t: Topology, prev: seq<seq<nat>>, adj: seq<seq<nat>>, k: nat, l: nat, r: nat)
    requires WellFormed(t) && Wellwired(t, prev) && Extends(prev, adj, k) && k < |t.edges|
    requires Bounded(prev, k)
    requires l < |t.ids| && r < |t.ids| && t.ids[l] == t.edges[k].leftId && t.ids[r] == t.edges[k].rightId
    requires forall v :: 0 <= v < |adj| && v != l && v != r ==> adj[v] == prev[v]
    requires adj[l] == prev[l] + [k] <==> adj[r] == prev[r] + [k]
    ensures Wellwired(t, adj)
  {
    ExtendedNoDup(prev, adj, k);
    ExtendedSymmetric(t, prev, adj, k, l, r);
  }

  /** Appending an edge number no list holds yet keeps every list free of repeats. */
  lemma ExtendedNoDup(prev: seq<seq<nat>>, adj: seq<seq<nat>>, k: nat)
    requires Extends(prev, adj, k) && Bounded(prev, k)
    requires forall v :: 0 <= v < |prev| ==> NoDup(prev[v])
    ensures forall v :: 0 <= v < |adj| ==> NoDup(adj[v])
  {
    forall v | 0 <= v < |adj|
      ensures NoDup(adj[v])
    {
      assert k !in prev[v];
    }
  }

  /** Appending edge k to both of its endpoints' lists, or to neither, keeps the lists symmetric. */
  lemma ExtendedSymmetric(t: Topology, prev: seq<seq<nat>>, adj: seq<seq<nat>>, k: nat, l: nat, r: nat)
    requires WellFormed(t) && Wellwired(t, prev) && Extends(prev, adj, k) && k < |t.edges|
    requires l < |t.ids| && r < |t.ids| && t.ids[l] == t.edges[k].leftId && t.ids[r] == t.edges[k].rightId
    requires forall v :: 0 <= v < |adj| && v != l && v != r ==> adj[v] == prev[v]
    requires adj[l] == prev[l] + [k] <==> adj[r] == prev[r] + [k]
    ensures forall v, w, x | 0 <= v < |adj| && 0 <= w < |adj| && x in adj[v] && x < |t.edges| ::
              Touches(t.edges[x], t.ids[w]) ==> x in adj[w]
  {
    forall v, w, x | 0 <= v < |adj| && 0 <= w < |adj| && x in adj[v] && x < |t.edges| && Touches(t.edges[x], t.ids[w])
      ensures x in adj[w]
    {
      if x != k {
        assert x in prev[v] && x in prev[w];
      } else {
        assert w == l || w == r;
        assert v == l || v == r;
      }
    }
  }

  /** A reverse twin of edge k stored at endpoint l is also stored at endpoint r. */
  lemma ReverseSeenByBoth(t: Topology, adj: seq<seq<nat>>, k: nat, l: nat, r: nat)
    requires WellFormed(t) && Wellwired(t, adj) && k < |t.edges|
    requires l < |t.ids| && r < |t.ids| && Touches(t.edges[k], t.ids[l]) && Touches(t.edges[k], t.ids[r])
    requires t.ids[l] != t.ids[r]
    requires HasReverse(t, adj[l], k)
    ensures HasReverse(t, adj[r], k)
  {
    var j :| 0 <= j < |adj[l]| && IsReverse(t.edges[adj[l][j]], t.edges[k]);
    var p := adj[l][j];
    assert Touches(t.edges[p], t.ids[r]);
    assert p in adj[r];
    var j' :| 0 <= j' < |adj[r]| && adj[r][j'] == p;
  }

  /**
   * A graph on which the gain formula is exact: no self-loop and no edge
   * that repeats an earlier one in the opposite direction.
   */
  predicate Simple(t: Topology)
  {
    && (forall k :: 0 <= k < |t.edges| ==> t.edges[k].leftId != t.edges[k].rightId)
    && (forall i, j :: 0 <= i < j < |t.edges| ==> !IsReverse(t.edges[i], t.edges[j]))
  }

  /** The edges among the first m that touch vertex v, in declaration order. */
  function Touching(t: Topology, v: nat, m: nat): (r: seq<nat>)
    requires v < |t.ids| && m <= |t.edges|
    ensures IncidentTo(t, v, r)
    ensures forall j :: 0 <= j < |r| ==> r[j] < m
  {
    if m == 0 then []
    else Touching(t, v, m - 1) + (if Touches(t.edges[m - 1], t.ids[v]) then [m - 1] else [])
  }

  /** On a simple graph no edge has a reverse twin among the edges before it. */
  lemma SimpleNoReverse(t: Topology, list: seq<nat>, k: nat)
    requires Simple(t) && k < |t.edges| && forall j :: 0 <= j < |list| ==> list[j] < k
    ensures !HasReverse(t, list, k)
  {
  }

  /** On a simple graph construction drops nothing: every vertex lists exactly the edges touching it. */
  lemma {:induction false} SimpleWiring(t: Topology, m: nat)
    requires WellFormed(t) && Simple(t) && m <= |t.edges|
    ensures forall v :: 0 <= v < |t.ids| ==> Wiring(t, m)[v] == Touching(t, v, m)
  {
    if m > 0 {
      var k := m - 1;
      SimpleWiring(t, k);
      SimpleWiringStep(t, k, m);
    }
  }

  lemma SimpleWiringStep(t: Topology, k: nat, m: nat)
    requires WellFormed(t) && Simple(t) && m == k + 1 <= |t.edges|
    requires forall v :: 0 <= v < |t.ids| ==> Wiring(t, k)[v] == Touching(t, v, k)
    ensures forall v :: 0 <= v < |t.ids| ==> Wiring(t, m)[v] == Touching(t, v, m)
  {
    var prev, adj := Wiring(t, k), Wiring(t, m);
    var l := IndexOf(t.ids, t.edges[k].leftId);
    var r := IndexOf(t.ids, t.edges[k].rightId);
    SimpleNoReverse(t, prev[l], k);
    SimpleNoReverse(t, prev[r], k);
    WiringStep(t, m);
    assert l != r;
    forall v | 0 <= v < |t.ids|
      ensures adj[v] == Touching(t, v, m)
    {
      assert Touches(t.edges[k], t.ids[v]) <==> v == l || v == r;
    }
  }
}
