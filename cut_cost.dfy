/**
 * The cut-cost evaluator: the number of declared edges whose endpoints lie
 * on different sides, and the D-value of a vertex (external minus internal
 * incident edges, over the vertex's own edge list).
 */
module CutCost {
  import opened GraphModel

  /** The endpoints of edge k carry different labels under L. */
  predicate Crosses(t: Topology, L: seq<Label>, k: nat)
    requires WellFormed(t) && |L| == |t.ids| && k < |t.edges|
  {
    L[IndexOf(t.ids, t.edges[k].leftId)] != L[IndexOf(t.ids, t.edges[k].rightId)]
  }

  /** The number of crossing edges among the first m declared edges. */
  function CutUpTo(t: Topology, L: seq<Label>, m: nat): (c: nat)
    requires WellFormed(t) && |L| == |t.ids| && m <= |t.edges|
    ensures c <= m
  {
    if m == 0 then 0 else CutUpTo(t, L, m - 1) + (if Crosses(t, L, m - 1) then 1 else 0)
  }

  /** The cut cost: crossing edges among all declared edges, repeats included. */
  function Cut(t: Topology, L: seq<Label>): (c: nat)
    requires WellFormed(t) && |L| == |t.ids|
    ensures c <= |t.edges|
  {
    CutUpTo(t, L, |t.edges|)
  }

  /** The numbers below m that satisfy P. */
  ghost function Below(P: nat -> bool, m: nat): set<nat>
  {
    set k: nat | k < m && P(k)
  }

  lemma BelowNothing(P: nat -> bool)
    ensures Below(P, 0) == {}
  {
  }

  lemma BelowStep(P: nat -> bool, m: nat)
    requires 0 < m
    ensures |Below(P, m)| == |Below(P, m - 1)| + (if P(m - 1) then 1 else 0)
  {
    if P(m - 1) {
      assert Below(P, m) == Below(P, m - 1) + {m - 1};
    } else {
      assert Below(P, m) == Below(P, m - 1);
    }
  }

  /** The edges that cross under L. */
  ghost function CrossingUnder(t: Topology, L: seq<Label>): nat -> bool
  {
    (k: nat) => WellFormed(t) && |L| == |t.ids| && k < |t.edges| && Crosses(t, L, k)
  }

  /** The crossing edges among the first m, as a set of edge numbers. */
  ghost function CrossingEdges(t: Topology, L: seq<Label>, m: nat): set<nat>
  {
    Below(CrossingUnder(t, L), m)
  }

  /** The cut cost is the number of declared edges whose endpoints are on different sides. */
  lemma {:induction false} CutCountsCrossingEdges(t: Topology, L: seq<Label>, m: nat)
    requires WellFormed(t) && |L| == |t.ids| && m <= |t.edges|
    ensures CutUpTo(t, L, m) == |CrossingEdges(t, L, m)|
  {
    if m == 0 {
      BelowNothing(CrossingUnder(t, L));
    } else {
      var k := m - 1;
      CutCountsCrossingEdges(t, L, k);
      CrossingStep(t, L, k, m);
    }
  }

  lemma CrossingStep(t: Topology, L: seq<Label>, k: nat, m: nat)
    requires WellFormed(t) && |L| == |t.ids| && m == k + 1 <= |t.edges|
    ensures |CrossingEdges(t, L, m)| == |CrossingEdges(t, L, k)| + (if Crosses(t, L, k) then 1 else 0)
  {
    BelowStep(CrossingUnder(t, L), m);
  }

  /** The vertex at the other end of edge k, seen from vertex v. */
  function OtherVertex(t: Topology, v: nat, k: nat): (o: nat)
    requires WellFormed(t) && v < |t.ids| && k < |t.edges| && Touches(t.edges[k], t.ids[v])
    ensures o < |t.ids| && Touches(t.edges[k], t.ids[o])
    ensures o == v <==> t.edges[k].leftId == t.edges[k].rightId
  {
    IndexOf(t.ids, Other(t.edges[k], t.ids[v]))
  }

  /** +1 for an external edge of v, -1 for an internal one. */
  function Contribution(t: Topology, L: seq<Label>, v: nat, k: nat): int
    requires WellFormed(t) && |L| == |t.ids| && v < |t.ids| && k < |t.edges| && Touches(t.edges[k], t.ids[v])
  {
    if L[OtherVertex(t, v, k)] != L[v] then 1 else -1
  }

  /** The D-value accumulated over the edge list of vertex v. */
  function DSum(t: Topology, L: seq<Label>, v: nat, list: seq<nat>): int
    requires WellFormed(t) && |L| == |t.ids| && v < |t.ids| && IncidentTo(t, v, list)
  {
    if list == [] then 0
    else DSum(t, L, v, list[..|list| - 1]) + Contribution(t, L, v, list[|list| - 1])
  }

  /** Summing one more entry of a list adds its contribution. */
  lemma DSumStep(t: Topology, L: seq<Label>, v: nat, list: seq<nat>, i: nat)
    requires WellFormed(t) && |L| == |t.ids| && v < |t.ids| && IncidentTo(t, v, list) && i < |list|
    ensures DSum(t, L, v, list[..i + 1]) == DSum(t, L, v, list[..i]) + Contribution(t, L, v, list[i])
  {
    assert list[..i + 1][..i] == list[..i];
  }

  /** The number of edges of list whose far endpoint is on the other side of v. */
  function ExternalCount(t: Topology, L: seq<Label>, v: nat, list: seq<nat>): nat
    requires WellFormed(t) && |L| == |t.ids| && v < |t.ids| && IncidentTo(t, v, list)
  {
    if list == [] then 0
    else ExternalCount(t, L, v, list[..|list| - 1]) + (if L[OtherVertex(t, v, list[|list| - 1])] != L[v] then 1 else 0)
  }

  /** The number of edges of list whose far endpoint is on the side of v. */
  function InternalCount(t: Topology, L: seq<Label>, v: nat, list: seq<nat>): nat
    requires WellFormed(t) && |L| == |t.ids| && v < |t.ids| && IncidentTo(t, v, list)
  {
    if list == [] then 0
    else InternalCount(t, L, v, list[..|list| - 1]) + (if L[OtherVertex(t, v, list[|list| - 1])] == L[v] then 1 else 0)
  }

  /** The D-value is external minus internal edges; every edge is one of the two, so |D| is at most the list length. */
  lemma {:induction false} DSumIsExternalMinusInternal(t: Topology, L: seq<Label>, v: nat, list: seq<nat>)
    requires WellFormed(t) && |L| == |t.ids| && v < |t.ids| && IncidentTo(t, v, list)
    ensures DSum(t, L, v, list) == ExternalCount(t, L, v, list) - InternalCount(t, L, v, list)
    ensures ExternalCount(t, L, v, list) + InternalCount(t, L, v, list) == |list|
    ensures -|list| <= DSum(t, L, v, list) <= |list|
  {
    if list != [] {
      DSumIsExternalMinusInternal(t, L, v, list[..|list| - 1]);
    }
  }

  /** The number of edges of list whose far endpoint (seen from v) is vertex a. */
  function CountTo(t: Topology, v: nat, a: nat, list: seq<nat>): nat
    requires WellFormed(t) && v < |t.ids| && IncidentTo(t, v, list)
  {
    if list == [] then 0
    else CountTo(t, v, a, list[..|list| - 1]) + (if OtherVertex(t, v, list[|list| - 1]) == a then 1 else 0)
  }

  /**
   * Moving another vertex a to the other side changes the D-value of v by
   * 2 for every edge to a: up when a was on v's side, down otherwise.
   */
  lemma {:induction false} FlipNeighbourD(t: Topology, L: seq<Label>, v: nat, a: nat, list: seq<nat>)
    requires WellFormed(t) && |L| == |t.ids| && v < |L| && a < |L| && v != a && IncidentTo(t, v, list)
    ensures DSum(t, L[a := Opposite(L[a])], v, list)
         == DSum(t, L, v, list) + (if L[a] == L[v] then 2 else -2) * CountTo(t, v, a, list)
  {
    if list != [] {
      FlipNeighbourD(t, L, v, a, list[..|list| - 1]);
    }
  }

  /** Two labels differ exactly when the opposite of the first equals the second. */
  lemma OppositeSwapsSides(x: Label, y: Label)
    ensures (Opposite(x) == y) == (x != y)
  {
  }

  /**
   * On a simple graph, moving vertex v to the other side lowers the cut
   * cost by exactly the D-value of v over the edges touching it.
   */
  lemma {:induction false} FlipCutUpTo(t: Topology, L: seq<Label>, v: nat, m: nat)
    requires WellFormed(t) && Simple(t) && |L| == |t.ids| && v < |L| && m <= |t.edges|
    ensures CutUpTo(t, L, m) - CutUpTo(t, L[v := Opposite(L[v])], m) == DSum(t, L, v, Touching(t, v, m))
  {
    if m == 0 {
      assert Touching(t, v, m) == [];
    } else {
      var k := m - 1;
      FlipCutUpTo(t, L, v, k);
      FlipCutStep(t, L, v, k, m);
    }
  }

  /** The change one edge makes to the cut when v moves: its contribution to D if it touches v, nothing otherwise. */
  lemma FlipCutStep(t: Topology, L: seq<Label>, v: nat, k: nat, m: nat)
    requires WellFormed(t) && Simple(t) && |L| == |t.ids| && v < |L| && m == k + 1 <= |t.edges|
    ensures CutUpTo(t, L, m) - CutUpTo(t, L[v := Opposite(L[v])], m) - DSum(t, L, v, Touching(t, v, m))
         == CutUpTo(t, L, k) - CutUpTo(t, L[v := Opposite(L[v])], k) - DSum(t, L, v, Touching(t, v, k))
  {
    var L' := L[v := Opposite(L[v])];
    var prefix := Touching(t, v, k);
    var touches := Touches(t.edges[k], t.ids[v]);
    assert CutUpTo(t, L, m) - CutUpTo(t, L', m)
        == CutUpTo(t, L, k) - CutUpTo(t, L', k)
           + (if Crosses(t, L, k) then 1 else 0) - (if Crosses(t, L', k) then 1 else 0);
    assert DSum(t, L, v, Touching(t, v, m))
        == DSum(t, L, v, prefix) + (if touches then Contribution(t, L, v, k) else 0) by {
      if touches {
        assert Touching(t, v, m) == prefix + [k];
        assert (prefix + [k])[..|prefix + [k]| - 1] == prefix;
      } else {
        assert Touching(t, v, m) == prefix;
      }
    }
    FlipCrossing(t, L, v, k);
  }

  /** Whether edge k crosses changes when v moves exactly when k touches v, and then by its contribution to D. */
  lemma FlipCrossing(t: Topology, L: seq<Label>, v: nat, k: nat)
    requires WellFormed(t) && Simple(t) && |L| == |t.ids| && v < |L| && k < |t.edges|
    ensures (if Crosses(t, L, k) then 1 else 0) - (if Crosses(t, L[v := Opposite(L[v])], k) then 1 else 0)
         == (if Touches(t.edges[k], t.ids[v]) then Contribution(t, L, v, k) else 0)
  {
    var L' := L[v := Opposite(L[v])];
    var l := IndexOf(t.ids, t.edges[k].leftId);
    var r := IndexOf(t.ids, t.edges[k].rightId);
    if Touches(t.edges[k], t.ids[v]) {
      assert l != r;
      var o := if l == v then r else l;
      assert OtherVertex(t, v, k) == o;
      assert L'[o] == L[o] && L'[v] == Opposite(L[v]);
      OppositeSwapsSides(L[v], L[o]);
    } else {
      assert l != v && r != v;
    }
  }
}
