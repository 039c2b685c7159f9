/**
 * The gain engine: the shared-edge count c_ab, the gain of exchanging a
 * pair of vertices across the cut, the labels a pass works with while it
 * exchanges pairs tentatively, and how D-values move when a pair is
 * exchanged.
 */
module Gain {
  import opened GraphModel
  import opened CutCost

  /** The distinct entries of a list. */
  function Elems(s: seq<nat>): set<nat>
  {
    set e | e in s
  }

  /** c_xy: the number of edges (by identity) that two edge lists have in common. */
  function Shared(x: seq<nat>, y: seq<nat>): nat
  {
    |Elems(x) * Elems(y)|
  }

  /** One exchange of a pass: vertex a leaves side A, vertex b leaves side B, with the gain recorded for it. */
  datatype Swap = Swap(a: nat, b: nat, gain: int)

  /** The gain of exchanging a and b under the D-values d: D[a] + D[b] - 2 c_ab. */
  function PairGain(adj: seq<seq<nat>>, d: seq<int>, a: nat, b: nat): int
    requires a < |adj| && b < |adj| && a < |d| && b < |d|
  {
    d[a] + d[b] - 2 * Shared(adj[a], adj[b])
  }

  /** The labels after exchanging s.a and s.b: s.a is put on side B, otherwise s.b on side A. */
  function Exchanged(L: seq<Label>, s: Swap): (r: seq<Label>)
    ensures |r| == |L|
    ensures forall v :: 0 <= v < |L| && v != s.a && v != s.b ==> r[v] == L[v]
    ensures s.a < |L| ==> r[s.a] == B
    ensures s.b < |L| && s.b != s.a ==> r[s.b] == A
  {
    seq(|L|, v requires 0 <= v < |L| => if v == s.a then B else if v == s.b then A else L[v])
  }

  /** The labels after exchanging every pair of swaps, in order. */
  function Tentative(L: seq<Label>, swaps: seq<Swap>): (r: seq<Label>)
    ensures |r| == |L|
  {
    if swaps == [] then L
    else Exchanged(Tentative(L, swaps[..|swaps| - 1]), swaps[|swaps| - 1])
  }

  /** The D-value of v under the labels L over the edge lists adj. */
  ghost function DValueOf(t: Topology, adj: seq<seq<nat>>, L: seq<Label>, v: nat): int
    requires WellFormed(t) && Wellwired(t, adj) && |L| == |t.ids| && v < |t.ids|
  {
    DSum(t, L, v, adj[v])
  }

  /** The gain of exchanging a and b under the labels L, from exact D-values. */
  ghost function SwapGain(t: Topology, adj: seq<seq<nat>>, L: seq<Label>, a: nat, b: nat): int
    requires WellFormed(t) && Wellwired(t, adj) && |L| == |t.ids| && a < |t.ids| && b < |t.ids|
  {
    DValueOf(t, adj, L, a) + DValueOf(t, adj, L, b) - 2 * Shared(adj[a], adj[b])
  }

  /** The entries of list that satisfy P. */
  ghost function Where(list: seq<nat>, P: nat -> bool): set<nat>
  {
    set e | e in list && P(e)
  }

  lemma WhereStep(list: seq<nat>, P: nat -> bool)
    requires list != [] && NoDup(list)
    ensures |Where(list, P)| == |Where(list[..|list| - 1], P)| + (if P(list[|list| - 1]) then 1 else 0)
  {
    var prefix, last := list[..|list| - 1], list[|list| - 1];
    assert list == prefix + [last];
    assert last !in prefix;
    if P(last) {
      assert Where(list, P) == Where(prefix, P) + {last};
    } else {
      assert Where(list, P) == Where(prefix, P);
    }
  }

  /** The edges whose far endpoint, seen from x, is a. */
  ghost function LeadsTo(t: Topology, x: nat, a: nat): nat -> bool
  {
    (e: nat) => WellFormed(t) && x < |t.ids| && e < |t.edges| && Touches(t.edges[e], t.ids[x]) && OtherVertex(t, x, e) == a
  }

  /** Without repeated entries, counting the edges of a list that lead to a counts a set. */
  lemma {:induction false} CountToIsWhere(t: Topology, x: nat, a: nat, list: seq<nat>)
    requires WellFormed(t) && x < |t.ids| && IncidentTo(t, x, list) && NoDup(list)
    ensures CountTo(t, x, a, list) == |Where(list, LeadsTo(t, x, a))|
  {
    if list == [] {
      assert Where(list, LeadsTo(t, x, a)) == {};
    } else {
      var prefix := list[..|list| - 1];
      CountToIsWhere(t, x, a, prefix);
      WhereStep(list, LeadsTo(t, x, a));
    }
  }

  /**
   * In well-wired lists, the edges x shares with another vertex a are
   * exactly the edges of x that lead to a, so c_xa counts them.
   */
  lemma SharedCountsEdgesTo(t: Topology, adj: seq<seq<nat>>, x: nat, a: nat)
    requires WellFormed(t) && Wellwired(t, adj) && x < |t.ids| && a < |t.ids| && x != a
    ensures Shared(adj[x], adj[a]) == CountTo(t, x, a, adj[x])
  {
    var P := LeadsTo(t, x, a);
    forall e | e in Elems(adj[x]) * Elems(adj[a])
      ensures e in Where(adj[x], P)
    {
      assert IncidentTo(t, x, adj[x]) && IncidentTo(t, a, adj[a]);
      var i :| 0 <= i < |adj[x]| && adj[x][i] == e;
      var j :| 0 <= j < |adj[a]| && adj[a][j] == e;
      assert Touches(t.edges[e], t.ids[x]) && Touches(t.edges[e], t.ids[a]);
      assert t.ids[x] != t.ids[a];
      assert Other(t.edges[e], t.ids[x]) == t.ids[a];
    }
    forall e | e in Where(adj[x], P)
      ensures e in Elems(adj[x]) * Elems(adj[a])
    {
      var o := OtherVertex(t, x, e);
      assert o == a;
    }
    assert Elems(adj[x]) * Elems(adj[a]) == Where(adj[x], P);
    CountToIsWhere(t, x, a, adj[x]);
  }

  /** Exchanging a (on side A) and b (on side B) is moving a across, then b across. */
  lemma ExchangedIsTwoMoves(T: seq<Label>, s: Swap)
    requires s.a < |T| && s.b < |T| && T[s.a] == A && T[s.b] == B
    ensures var T1 := T[s.a := Opposite(T[s.a])];
      Exchanged(T, s) == T1[s.b := Opposite(T1[s.b])]
  {
  }

  /**
   * The incremental D update of a pass is exact: after exchanging a and b,
   * a vertex x on a's side gains 2 c_xa - 2 c_xb, and one on b's side
   * gains 2 c_xb - 2 c_xa.
   */
  lemma IncrementalD(t: Topology, adj: seq<seq<nat>>, T: seq<Label>, s: Swap, x: nat)
    requires WellFormed(t) && Wellwired(t, adj) && |T| == |t.ids|
    requires s.a < |T| && s.b < |T| && x < |T| && x != s.a && x != s.b
    requires T[s.a] == A && T[s.b] == B
    ensures DValueOf(t, adj, Exchanged(T, s), x)
         == DValueOf(t, adj, T, x) + (if T[x] == A then 2 * Shared(adj[x], adj[s.a]) - 2 * Shared(adj[x], adj[s.b])
                                      else 2 * Shared(adj[x], adj[s.b]) - 2 * Shared(adj[x], adj[s.a]))
  {
    var T1 := T[s.a := Opposite(T[s.a])];
    ExchangedIsTwoMoves(T, s);
    FlipNeighbourD(t, T, x, s.a, adj[x]);
    FlipNeighbourD(t, T1, x, s.b, adj[x]);
    SharedCountsEdgesTo(t, adj, x, s.a);
    SharedCountsEdgesTo(t, adj, x, s.b);
  }

  /**
   * On a simple graph the gain of exchanging a (side A) and b (side B) is
   * exactly the drop in cut cost the exchange causes.
   */
  lemma GainIsCutReduction(t: Topology, T: seq<Label>, s: Swap)
    requires WellFormed(t) && Simple(t) && |T| == |t.ids|
    requires s.a < |T| && s.b < |T| && T[s.a] == A && T[s.b] == B
    ensures Cut(t, Exchanged(T, s)) == Cut(t, T) - SwapGain(t, Wired(t), T, s.a, s.b)
  {
    var n := |t.edges|;
    var adj := Wired(t);
    var T1 := T[s.a := Opposite(T[s.a])];
    assert Exchanged(T, s) == T1[s.b := Opposite(T1[s.b])] by {
      ExchangedIsTwoMoves(T, s);
    }
    assert adj[s.a] == Touching(t, s.a, n) && adj[s.b] == Touching(t, s.b, n) by {
      SimpleWiring(t, n);
    }
    // moving a lowers the cut by D(a)
    assert Cut(t, T) - Cut(t, T1) == DValueOf(t, adj, T, s.a) by {
      FlipCutUpTo(t, T, s.a, n);
    }
    // then moving b lowers it by D(b) as it is once a has moved
    assert Cut(t, T1) - Cut(t, Exchanged(T, s)) == DValueOf(t, adj, T1, s.b) by {
      FlipCutUpTo(t, T1, s.b, n);
    }
    // which is D(b) - 2 c_ab
    assert DValueOf(t, adj, T1, s.b) == DValueOf(t, adj, T, s.b) - 2 * Shared(adj[s.a], adj[s.b]) by {
      FlipNeighbourD(t, T, s.b, s.a, adj[s.b]);
      SharedCountsEdgesTo(t, adj, s.b, s.a);
      assert Elems(adj[s.b]) * Elems(adj[s.a]) == Elems(adj[s.a]) * Elems(adj[s.b]);
    }
  }
}
