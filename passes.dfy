/**
 * What one pass of the partitioner computes, stated on values: the two
 * groups, the greedy choice of each exchanged pair, the prefix of the
 * exchanges worth committing, and what committing them does to the sides
 * and to the cut.  The loops that compute these live here too, as methods
 * over plain values.
 */
module Passes {
  import opened GraphModel
  import opened CutCost
  import opened Gain

  datatype Option<T> = None | Some(value: T)

  /** Strictly increasing, hence free of repeats. */
  predicate Increasing(s: seq<nat>)
  {
    forall i, j :: 0 <= i < j < |s| ==> s[i] < s[j]
  }

  /** The vertices on side l, in vertex order. */
  function Members(L: seq<Label>, l: Label): (r: seq<nat>)
    ensures Increasing(r)
    ensures forall j :: 0 <= j < |r| ==> r[j] < |L| && L[r[j]] == l
    ensures forall v :: 0 <= v < |L| && L[v] == l ==> v in r
  {
    if L == [] then []
    else Members(L[..|L| - 1], l) + (if L[|L| - 1] == l then [|L| - 1] else [])
  }

  /** Every vertex is on exactly one of the two sides. */
  lemma {:induction false} MembersSplit(L: seq<Label>)
    ensures |Members(L, A)| + |Members(L, B)| == |L|
  {
    if L != [] {
      MembersSplit(L[..|L| - 1]);
    }
  }

  /** Putting vertex v on side x removes it from its old side and adds it to x. */
  lemma {:induction false} MembersUpdate(L: seq<Label>, v: nat, x: Label, l: Label)
    requires v < |L|
    ensures |Members(L[v := x], l)| == |Members(L, l)| - (if L[v] == l then 1 else 0) + (if x == l then 1 else 0)
  {
    var n := |L| - 1;
    if v == n {
      assert L[v := x][..n] == L[..n];
    } else {
      assert L[v := x][..n] == L[..n][v := x];
      MembersUpdate(L[..n], v, x, l);
    }
  }

  /** Exchanging a vertex of side A with a vertex of side B keeps the size of side A. */
  lemma ExchangeKeepsSizes(T: seq<Label>, s: Swap)
    requires s.a < |T| && s.b < |T| && T[s.a] == A && T[s.b] == B
    ensures |Members(Exchanged(T, s), A)| == |Members(T, A)|
  {
    ExchangedIsTwoMoves(T, s);
    MembersUpdate(T, s.a, B, A);
    MembersUpdate(T[s.a := B], s.b, A, A);
  }

  /** The initial split: the first half (rounded down) of the vertices on side A, the rest on side B. */
  function InitialLabels(n: nat): (r: seq<Label>)
    ensures |r| == n
  {
    seq(n, v => if v < n / 2 then A else B)
  }

  /** Labels that put exactly the first h vertices on side A put h vertices there. */
  lemma {:induction false} SplitSize(L: seq<Label>, h: nat)
    requires h <= |L| && forall v :: 0 <= v < |L| ==> L[v] == (if v < h then A else B)
    ensures |Members(L, A)| == h
  {
    if L != [] {
      var n := |L| - 1;
      SplitSize(L[..n], if h <= n then h else n);
    }
  }

  /** The initial split puts floor(n/2) vertices on side A and the other n - floor(n/2) on side B. */
  lemma InitialSizes(n: nat)
    ensures |Members(InitialLabels(n), A)| == n / 2
    ensures |Members(InitialLabels(n), B)| == n - n / 2
  {
    SplitSize(InitialLabels(n), n / 2);
    MembersSplit(InitialLabels(n));
  }

  /** x is on side A under L and none of the exchanges prior has taken it. */
  predicate InPoolA(L: seq<Label>, prior: seq<Swap>, x: nat)
  {
    x < |L| && L[x] == A && forall i :: 0 <= i < |prior| ==> prior[i].a != x
  }

  /** y is on side B under L and none of the exchanges prior has taken it. */
  predicate InPoolB(L: seq<Label>, prior: seq<Swap>, y: nat)
  {
    y < |L| && L[y] == B && forall i :: 0 <= i < |prior| ==> prior[i].b != y
  }

  /** Every exchange takes a vertex still unvisited on side A and one still unvisited on side B. */
  ghost predicate Drawn(L: seq<Label>, swaps: seq<Swap>)
  {
    forall k :: 0 <= k < |swaps| ==> InPoolA(L, swaps[..k], swaps[k].a) && InPoolB(L, swaps[..k], swaps[k].b)
  }

  /** The pair (x, y) is examined before the pair (a, b): rows of side A first, then side B. */
  predicate Before(x: nat, y: nat, a: nat, b: nat)
  {
    x < a || (x == a && y < b)
  }

  /**
   * After the exchanges prior, s records the best pair of the unvisited
   * vertices with its exact gain, and no pair examined before it is as good.
   */
  ghost predicate BestPair(t: Topology, adj: seq<seq<nat>>, L: seq<Label>, prior: seq<Swap>, s: Swap)
    requires WellFormed(t) && Wellwired(t, adj) && |L| == |t.ids|
  {
    var T := Tentative(L, prior);
    s.a < |L| && s.b < |L| && s.gain == SwapGain(t, adj, T, s.a, s.b) &&
    forall x, y :: InPoolA(L, prior, x) && InPoolB(L, prior, y) ==>
      SwapGain(t, adj, T, x, y) <= s.gain && (Before(x, y, s.a, s.b) ==> SwapGain(t, adj, T, x, y) < s.gain)
  }

  /** The exchanges of a pass, each the greedy choice after the ones before it. */
  ghost predicate Greedy(t: Topology, adj: seq<seq<nat>>, L: seq<Label>, swaps: seq<Swap>)
    requires WellFormed(t) && Wellwired(t, adj) && |L| == |t.ids|
  {
    Drawn(L, swaps) && forall k :: 0 <= k < |swaps| ==> BestPair(t, adj, L, swaps[..k], swaps[k])
  }

  /** Two best pairs after the same exchanges are the same pair, with the same gain. */
  lemma BestPairUnique(t: Topology, adj: seq<seq<nat>>, L: seq<Label>, prior: seq<Swap>, s: Swap, s': Swap)
    requires WellFormed(t) && Wellwired(t, adj) && |L| == |t.ids|
    requires InPoolA(L, prior, s.a) && InPoolB(L, prior, s.b) && BestPair(t, adj, L, prior, s)
    requires InPoolA(L, prior, s'.a) && InPoolB(L, prior, s'.b) && BestPair(t, adj, L, prior, s')
    ensures s == s'
  {
    var T := Tentative(L, prior);
    assert SwapGain(t, adj, T, s'.a, s'.b) <= s.gain;
    assert SwapGain(t, adj, T, s.a, s.b) <= s'.gain;
    assert !Before(s'.a, s'.b, s.a, s.b) && !Before(s.a, s.b, s'.a, s'.b);
  }

  /**
   * A pass is determined by its labels: two greedy sequences of exchanges
   * of the same length are equal.
   */
  lemma GreedyUnique(t: Topology, adj: seq<seq<nat>>, L: seq<Label>, s1: seq<Swap>, s2: seq<Swap>)
    requires WellFormed(t) && Wellwired(t, adj) && |L| == |t.ids|
    requires Greedy(t, adj, L, s1) && Greedy(t, adj, L, s2) && |s1| == |s2|
    ensures s1 == s2
  {
    GreedyPrefixesAgree(t, adj, L, s1, s2, |s1|);
    assert s1[..|s1|] == s1 && s2[..|s2|] == s2;
  }

  lemma {:induction false} GreedyPrefixesAgree(t: Topology, adj: seq<seq<nat>>, L: seq<Label>, s1: seq<Swap>, s2: seq<Swap>, m: nat)
    requires WellFormed(t) && Wellwired(t, adj) && |L| == |t.ids|
    requires Greedy(t, adj, L, s1) && Greedy(t, adj, L, s2) && m <= |s1| == |s2|
    ensures s1[..m] == s2[..m]
  {
    if m > 0 {
      var k := m - 1;
      GreedyPrefixesAgree(t, adj, L, s1, s2, k);
      GreedyChoiceAgrees(t, adj, L, s1, s2, k);
      PrefixSnoc(s1, k);
      PrefixSnoc(s2, k);
    }
  }

  /** A prefix one longer is the shorter prefix followed by the next entry. */
  lemma PrefixSnoc(s: seq<Swap>, k: nat)
    requires k < |s|
    ensures s[..k + 1] == s[..k] + [s[k]]
  {
  }

  lemma GreedyChoiceAgrees(t: Topology, adj: seq<seq<nat>>, L: seq<Label>, s1: seq<Swap>, s2: seq<Swap>, k: nat)
    requires WellFormed(t) && Wellwired(t, adj) && |L| == |t.ids|
    requires Greedy(t, adj, L, s1) && Greedy(t, adj, L, s2) && k < |s1| == |s2| && s1[..k] == s2[..k]
    ensures s1[k] == s2[k]
  {
    assert InPoolA(L, s1[..k], s1[k].a) && InPoolB(L, s1[..k], s1[k].b) && BestPair(t, adj, L, s1[..k], s1[k]);
    assert InPoolA(L, s2[..k], s2[k].a) && InPoolB(L, s2[..k], s2[k].b) && BestPair(t, adj, L, s2[..k], s2[k]);
    BestPairUnique(t, adj, L, s1[..k], s1[k], s2[k]);
  }

  /** One more greedy choice extends a greedy sequence of exchanges. */
  lemma GreedyExtend(t: Topology, adj: seq<seq<nat>>, L: seq<Label>, swaps: seq<Swap>, s: Swap)
    requires WellFormed(t) && Wellwired(t, adj) && |L| == |t.ids|
    requires Greedy(t, adj, L, swaps)
    requires InPoolA(L, swaps, s.a) && InPoolB(L, swaps, s.b) && BestPair(t, adj, L, swaps, s)
    ensures Greedy(t, adj, L, swaps + [s])
  {
    DrawnExtend(L, swaps, s);
    var ext := swaps + [s];
    forall k | 0 <= k < |ext|
      ensures BestPair(t, adj, L, ext[..k], ext[k])
    {
      if k < |swaps| {
        BestPairKept(t, adj, L, swaps, s, k);
      } else {
        assert ext[..k] == swaps;
      }
    }
  }

  /** Every choice of a greedy sequence is still a greedy choice once the sequence is extended by s. */
  lemma BestPairKept(t: Topology, adj: seq<seq<nat>>, L: seq<Label>, swaps: seq<Swap>, s: Swap, k: nat)
    requires WellFormed(t) && Wellwired(t, adj) && |L| == |t.ids|
    requires Greedy(t, adj, L, swaps) && k < |swaps|
    ensures BestPair(t, adj, L, (swaps + [s])[..k], (swaps + [s])[k])
  {
    var ext := swaps + [s];
    assert ext[..k] == swaps[..k] && ext[k] == swaps[k];
  }

  /** Drawing one more pair of unvisited vertices extends a sequence of drawn pairs. */
  lemma DrawnExtend(L: seq<Label>, swaps: seq<Swap>, s: Swap)
    requires Drawn(L, swaps) && InPoolA(L, swaps, s.a) && InPoolB(L, swaps, s.b)
    ensures Drawn(L, swaps + [s])
  {
    var ext := swaps + [s];
    forall k | 0 <= k < |ext|
      ensures InPoolA(L, ext[..k], ext[k].a) && InPoolB(L, ext[..k], ext[k].b)
    {
      if k < |swaps| {
        assert ext[..k] == swaps[..k] && ext[k] == swaps[k];
      } else {
        assert ext[..k] == swaps && ext[k] == s;
      }
    }
  }

  /** A vertex that none of the exchanges swaps keeps its label. */
  lemma {:induction false} TentativeUntouched(L: seq<Label>, swaps: seq<Swap>, x: nat)
    requires x < |L| && forall i :: 0 <= i < |swaps| ==> swaps[i].a != x && swaps[i].b != x
    ensures Tentative(L, swaps)[x] == L[x]
  {
    if swaps != [] {
      TentativeUntouched(L, swaps[..|swaps| - 1], x);
    }
  }

  /** An unvisited vertex still has the label it had when the pass began. */
  lemma PoolKeepsLabel(L: seq<Label>, swaps: seq<Swap>, k: nat, x: nat)
    requires Drawn(L, swaps) && k <= |swaps|
    requires InPoolA(L, swaps[..k], x) || InPoolB(L, swaps[..k], x)
    ensures Tentative(L, swaps[..k])[x] == L[x]
  {
    forall i | 0 <= i < k
      ensures swaps[..k][i].a != x && swaps[..k][i].b != x
    {
      assert InPoolA(L, swaps[..i], swaps[i].a) && InPoolB(L, swaps[..i], swaps[i].b);
    }
    TentativeUntouched(L, swaps[..k], x);
  }

  /** Exchanging any prefix of a pass's pairs keeps the size of side A. */
  lemma {:induction false} DrawnKeepsSizes(L: seq<Label>, swaps: seq<Swap>, j: nat)
    requires Drawn(L, swaps) && j <= |swaps|
    ensures |Members(Tentative(L, swaps[..j]), A)| == |Members(L, A)|
  {
    if j > 0 {
      var k := j - 1;
      DrawnKeepsSizes(L, swaps, k);
      DrawnStep(L, swaps, k);
      ExchangeKeepsSizes(Tentative(L, swaps[..k]), swaps[k]);
    }
  }

  /** The k-th drawn pair exchanges a vertex still on side A with one still on side B. */
  lemma DrawnStep(L: seq<Label>, swaps: seq<Swap>, k: nat)
    requires Drawn(L, swaps) && k < |swaps|
    ensures swaps[k].a < |L| && swaps[k].b < |L|
    ensures Tentative(L, swaps[..k])[swaps[k].a] == A && Tentative(L, swaps[..k])[swaps[k].b] == B
    ensures Tentative(L, swaps[..k + 1]) == Exchanged(Tentative(L, swaps[..k]), swaps[k])
  {
    assert swaps[..k + 1][..k] == swaps[..k];
    PoolKeepsLabel(L, swaps, k, swaps[k].a);
    PoolKeepsLabel(L, swaps, k, swaps[k].b);
  }

  /** The sum of the first j recorded gains. */
  function PrefixSum(swaps: seq<Swap>, j: nat): int
    requires j <= |swaps|
  {
    if j == 0 then 0 else PrefixSum(swaps, j - 1) + swaps[j - 1].gain
  }

  /**
   * On a simple graph, the sum of the first j gains of a greedy pass is
   * exactly the drop in cut cost from exchanging its first j pairs.
   */
  lemma {:induction false} PrefixSumIsCutDrop(t: Topology, L: seq<Label>, swaps: seq<Swap>, j: nat)
    requires WellFormed(t) && Simple(t) && |L| == |t.ids|
    requires Greedy(t, Wired(t), L, swaps) && j <= |swaps|
    ensures Cut(t, Tentative(L, swaps[..j])) == Cut(t, L) - PrefixSum(swaps, j)
  {
    if j > 0 {
      var k := j - 1;
      PrefixSumIsCutDrop(t, L, swaps, k);
      GreedyStepDrop(t, L, swaps, k);
    }
  }

  /** On a simple graph, the k-th exchange of a greedy pass lowers the cut by its recorded gain. */
  lemma GreedyStepDrop(t: Topology, L: seq<Label>, swaps: seq<Swap>, k: nat)
    requires WellFormed(t) && Simple(t) && |L| == |t.ids|
    requires Greedy(t, Wired(t), L, swaps) && k < |swaps|
    ensures Cut(t, Tentative(L, swaps[..k + 1])) == Cut(t, Tentative(L, swaps[..k])) - swaps[k].gain
  {
    DrawnStep(L, swaps, k);
    assert BestPair(t, Wired(t), L, swaps[..k], swaps[k]);
    GainIsCutReduction(t, Tentative(L, swaps[..k]), swaps[k]);
  }

  /** Taking the i-th entry out of an increasing list leaves the other entries, still increasing. */
  lemma RemoveAt(s: seq<nat>, i: nat)
    requires Increasing(s) && i < |s|
    ensures Increasing(s[..i] + s[i + 1..]) && |s[..i] + s[i + 1..]| == |s| - 1
    ensures forall x :: x in s[..i] + s[i + 1..] <==> x in s && x != s[i]
  {
    var r := s[..i] + s[i + 1..];
    assert forall k :: 0 <= k < |r| ==> r[k] == (if k < i then s[k] else s[k + 1]);
    forall x | x in s && x != s[i]
      ensures x in r
    {
      var k :| 0 <= k < |s| && s[k] == x;
      if k < i {
        assert r[k] == x;
      } else {
        assert r[k - 1] == x;
      }
    }
  }

  /** The pools hold vertices of the graph, and there is a D-value for every vertex. */
  predicate PoolsIn(adj: seq<seq<nat>>, d: seq<int>, ga: seq<nat>, gb: seq<nat>)
  {
    |d| == |adj| && (forall p :: 0 <= p < |ga| ==> ga[p] < |adj|) && (forall q :: 0 <= q < |gb| ==> gb[q] < |adj|)
  }

  /** The gain of pairing the p-th unvisited vertex of side A with the q-th of side B. */
  function GainAt(adj: seq<seq<nat>>, d: seq<int>, ga: seq<nat>, gb: seq<nat>, p: nat, q: nat): int
    requires PoolsIn(adj, d, ga, gb) && p < |ga| && q < |gb|
  {
    PairGain(adj, d, ga[p], gb[q])
  }

  /**
   * Committing the first j exchanges of a greedy pass keeps the size of
   * side A and, on a simple graph, lowers the cut cost by the sum of their
   * gains.  Every exchanged vertex is a vertex of the graph.
   */
  lemma CommitEffect(t: Topology, L: seq<Label>, swaps: seq<Swap>, j: nat)
    requires WellFormed(t) && |L| == |t.ids| && Greedy(t, Wired(t), L, swaps) && j <= |swaps|
    ensures forall k :: 0 <= k < |swaps| ==> swaps[k].a < |L| && swaps[k].b < |L|
    ensures |Members(Tentative(L, swaps[..j]), A)| == |Members(L, A)|
    ensures Simple(t) ==> Cut(t, Tentative(L, swaps[..j])) == Cut(t, L) - PrefixSum(swaps, j)
  {
    DrawnKeepsSizes(L, swaps, j);
    if Simple(t) {
      PrefixSumIsCutDrop(t, L, swaps, j);
    }
  }

  /**
   * The pair selection: scans side A's pool in order and, for each vertex,
   * side B's pool in order, keeping the first pair whose gain
   * D[a] + D[b] - 2 c_ab beats every gain seen so far.
   */
  method SelectPair(adj: seq<seq<nat>>, d: seq<int>, ga: seq<nat>, gb: seq<nat>) returns (i: nat, j: nat, g: int)
    requires |ga| > 0 && |gb| > 0 && PoolsIn(adj, d, ga, gb)
    ensures i < |ga| && j < |gb| && g == GainAt(adj, d, ga, gb, i, j)
    ensures forall p, q :: 0 <= p < |ga| && 0 <= q < |gb| ==> GainAt(adj, d, ga, gb, p, q) <= g
    ensures forall p, q :: 0 <= p < |ga| && 0 <= q < |gb| && Before(p, q, i, j) ==> GainAt(adj, d, ga, gb, p, q) < g
  {
    var found := false;  // no gain seen yet: the maximum is still minus infinity
    i, j, g := 0, 0, 0;
    var p := 0;
    while p < |ga|
      invariant 0 <= p <= |ga|
      invariant found <==> p > 0
      invariant found ==> i < p && j < |gb| && g == GainAt(adj, d, ga, gb, i, j)
      invariant !found ==> i == 0 && j == 0
      invariant forall p', q' :: 0 <= p' < |ga| && 0 <= q' < |gb| && Before(p', q', p, 0) ==> GainAt(adj, d, ga, gb, p', q') <= g
      invariant forall p', q' :: 0 <= p' < |ga| && 0 <= q' < |gb| && Before(p', q', i, j) ==> GainAt(adj, d, ga, gb, p', q') < g
    {
      i, j, g := ScanRow(adj, d, ga, gb, p, found, i, j, g);
      found := true;
      p := p + 1;
    }
  }

  /**
   * One row of the selection: scans side B's pool for the p-th vertex of
   * side A's pool, starting from the best pair (i0, j0) of the earlier rows
   * when there is one (found), and keeps the first pair of best gain.
   */
  method ScanRow(adj: seq<seq<nat>>, d: seq<int>, ga: seq<nat>, gb: seq<nat>, p: nat,
                 found: bool, i0: nat, j0: nat, g0: int) returns (i: nat, j: nat, g: int)
    requires p < |ga| && |gb| > 0 && PoolsIn(adj, d, ga, gb)
    requires !found ==> p == 0 && i0 == 0 && j0 == 0
    requires found ==> i0 < p && j0 < |gb| && g0 == GainAt(adj, d, ga, gb, i0, j0)
    requires forall p', q' :: 0 <= p' < |ga| && 0 <= q' < |gb| && Before(p', q', p, 0) ==> GainAt(adj, d, ga, gb, p', q') <= g0
    requires forall p', q' :: 0 <= p' < |ga| && 0 <= q' < |gb| && Before(p', q', i0, j0) ==> GainAt(adj, d, ga, gb, p', q') < g0
    ensures i <= p && j < |gb| && g == GainAt(adj, d, ga, gb, i, j)
    ensures forall p', q' :: 0 <= p' < |ga| && 0 <= q' < |gb| && Before(p', q', p + 1, 0) ==> GainAt(adj, d, ga, gb, p', q') <= g
    ensures forall p', q' :: 0 <= p' < |ga| && 0 <= q' < |gb| && Before(p', q', i, j) ==> GainAt(adj, d, ga, gb, p', q') < g
  {
    var seen := found;
    i, j, g := i0, j0, g0;
    var q := 0;
    while q < |gb|
      invariant 0 <= q <= |gb|
      invariant seen <==> found || q > 0
      invariant seen ==> Before(i, j, p, q) && j < |gb| && g == GainAt(adj, d, ga, gb, i, j)
      invariant forall p', q' :: 0 <= p' < p && 0 <= q' < |gb| ==> GainAt(adj, d, ga, gb, p', q') <= g
      invariant forall q' :: 0 <= q' < q ==> GainAt(adj, d, ga, gb, p, q') <= g
      invariant forall p', q' :: 0 <= p' < |ga| && 0 <= q' < |gb| && Before(p', q', i, j) ==> GainAt(adj, d, ga, gb, p', q') < g
    {
      var gain := PairGain(adj, d, ga[p], gb[q]);
      if !seen || gain > g {
        seen := true;
        i, j, g := p, q, gain;
      }
      q := q + 1;
    }
  }

  /**
   * With exact D-values for the unvisited vertices, the pair the selection
   * returns is the greedy choice after the exchanges made so far.
   */
  lemma SelectionIsBest(t: Topology, adj: seq<seq<nat>>, L: seq<Label>, swaps: seq<Swap>,
                        d: seq<int>, ga: seq<nat>, gb: seq<nat>, i: nat, j: nat, g: int)
    requires WellFormed(t) && Wellwired(t, adj) && |L| == |t.ids| && |d| == |L|
    requires Increasing(ga) && Increasing(gb) && i < |ga| && j < |gb|
    requires forall x :: x in ga <==> InPoolA(L, swaps, x)
    requires forall y :: y in gb <==> InPoolB(L, swaps, y)
    requires forall x: nat :: InPoolA(L, swaps, x) || InPoolB(L, swaps, x) ==> d[x] == DValueOf(t, adj, Tentative(L, swaps), x)
    requires PoolsIn(adj, d, ga, gb) && g == GainAt(adj, d, ga, gb, i, j)
    requires forall p, q :: 0 <= p < |ga| && 0 <= q < |gb| ==> GainAt(adj, d, ga, gb, p, q) <= g
    requires forall p, q :: 0 <= p < |ga| && 0 <= q < |gb| && Before(p, q, i, j) ==> GainAt(adj, d, ga, gb, p, q) < g
    ensures BestPair(t, adj, L, swaps, Swap(ga[i], gb[j], g))
  {
    var T := Tentative(L, swaps);
    forall x, y | InPoolA(L, swaps, x) && InPoolB(L, swaps, y)
      ensures SwapGain(t, adj, T, x, y) <= g
      ensures Before(x, y, ga[i], gb[j]) ==> SwapGain(t, adj, T, x, y) < g
    {
      var p := Position(ga, x);
      var q := Position(gb, y);
      assert GainAt(adj, d, ga, gb, p, q) == SwapGain(t, adj, T, x, y);
      IncreasingOrder(ga, p, i);
      IncreasingOrder(gb, q, j);
    }
    assert ga[i] in ga && gb[j] in gb;
  }

  /** The position of an entry of a list. */
  lemma Position(s: seq<nat>, x: nat) returns (p: nat)
    requires x in s
    ensures p < |s| && s[p] == x
  {
    p :| 0 <= p < |s| && s[p] == x;
  }

  /** In an increasing list, entries compare as their positions do. */
  lemma IncreasingOrder(s: seq<nat>, p: nat, i: nat)
    requires Increasing(s) && p < |s| && i < |s|
    ensures s[p] < s[i] <==> p < i
    ensures s[p] == s[i] <==> p == i
  {
  }

  /**
   * r is d after exchanging a and b: every unvisited vertex x of side A
   * gains 2 c_xa - 2 c_xb, every unvisited vertex y of side B gains
   * 2 c_yb - 2 c_ya, and every other entry is kept.
   */
  ghost predicate UpdatedBy(adj: seq<seq<nat>>, d: seq<int>, ga: seq<nat>, gb: seq<nat>, a: nat, b: nat, r: seq<int>)
    requires PoolsIn(adj, d, ga, gb) && a < |adj| && b < |adj|
  {
    && |r| == |d|
    && (forall x :: x in ga ==> r[x] == d[x] + 2 * Shared(adj[x], adj[a]) - 2 * Shared(adj[x], adj[b]))
    && (forall y :: y in gb ==> r[y] == d[y] + 2 * Shared(adj[y], adj[b]) - 2 * Shared(adj[y], adj[a]))
    && (forall v :: 0 <= v < |d| && v !in ga && v !in gb ==> r[v] == d[v])
  }

  /** The D-value update of a pass after it takes the pair a, b (see UpdatedBy). */
  method UpdateD(adj: seq<seq<nat>>, d: seq<int>, ga: seq<nat>, gb: seq<nat>, a: nat, b: nat) returns (r: seq<int>)
    requires PoolsIn(adj, d, ga, gb) && a < |adj| && b < |adj|
    requires Increasing(ga) && Increasing(gb) && forall p :: 0 <= p < |ga| ==> ga[p] !in gb
    ensures UpdatedBy(adj, d, ga, gb, a, b, r)
  {
    var mid := ShiftPool(adj, d, ga, a, b);
    r := ShiftPool(adj, mid, gb, b, a);
  }

  /** Adds 2 c_x,toward - 2 c_x,away to the D-value of every vertex x of pool and keeps every other entry. */
  method ShiftPool(adj: seq<seq<nat>>, d: seq<int>, pool: seq<nat>, toward: nat, away: nat) returns (r: seq<int>)
    requires |d| == |adj| && toward < |adj| && away < |adj| && Increasing(pool)
    requires forall p :: 0 <= p < |pool| ==> pool[p] < |adj|
    ensures |r| == |d|
    ensures forall x :: x in pool ==> r[x] == d[x] + 2 * Shared(adj[x], adj[toward]) - 2 * Shared(adj[x], adj[away])
    ensures forall v :: 0 <= v < |d| && v !in pool ==> r[v] == d[v]
  {
    r := d;
    for i := 0 to |pool|
      invariant |r| == |d|
      invariant forall x :: x in pool[..i] ==> r[x] == d[x] + 2 * Shared(adj[x], adj[toward]) - 2 * Shared(adj[x], adj[away])
      invariant forall v :: 0 <= v < |d| && v !in pool[..i] ==> r[v] == d[v]
    {
      var x := pool[i];
      assert pool[..i + 1] == pool[..i] + [x];
      var cxt := Shared(adj[x], adj[toward]);
      var cxa := Shared(adj[x], adj[away]);
      r := r[x := r[x] + 2 * cxt - 2 * cxa];
    }
    assert pool[..|pool|] == pool;
  }

  /**
   * Where a pass stands after the exchanges swaps: they are greedy, the
   * pools hold exactly the unvisited vertices of each side in vertex
   * order, and d holds their exact D-values under the tentative labels.
   */
  ghost predicate PassState(t: Topology, adj: seq<seq<nat>>, L: seq<Label>, swaps: seq<Swap>,
                            ga: seq<nat>, gb: seq<nat>, d: seq<int>)
    requires WellFormed(t) && Wellwired(t, adj) && |L| == |t.ids|
  {
    && Greedy(t, adj, L, swaps)
    && Increasing(ga) && Increasing(gb)
    && (forall x :: x in ga <==> InPoolA(L, swaps, x))
    && (forall y :: y in gb <==> InPoolB(L, swaps, y))
    && |d| == |L|
    && (forall x: nat :: InPoolA(L, swaps, x) || InPoolB(L, swaps, x) ==> d[x] == DValueOf(t, adj, Tentative(L, swaps), x))
  }

  /** A pass starts from the two groups and the exact D-values, with nothing exchanged. */
  lemma PassStart(t: Topology, adj: seq<seq<nat>>, L: seq<Label>, d: seq<int>)
    requires WellFormed(t) && Wellwired(t, adj) && |L| == |t.ids|
    requires |d| == |L| && forall v :: 0 <= v < |d| ==> d[v] == DValueOf(t, adj, L, v)
    ensures PassState(t, adj, L, [], Members(L, A), Members(L, B), d)
  {
    var ga, gb := Members(L, A), Members(L, B);
    forall x
      ensures (x in ga <==> InPoolA(L, [], x)) && (x in gb <==> InPoolB(L, [], x))
    {
      if x in ga {
        var j :| 0 <= j < |ga| && ga[j] == x;
      }
      if x in gb {
        var j :| 0 <= j < |gb| && gb[j] == x;
      }
    }
    assert Tentative(L, []) == L;
  }

  /** The pools of a pass are vertices of the graph, and no vertex is in both. */
  lemma PoolsReady(t: Topology, adj: seq<seq<nat>>, L: seq<Label>, swaps: seq<Swap>,
                   ga: seq<nat>, gb: seq<nat>, d: seq<int>)
    requires WellFormed(t) && Wellwired(t, adj) && |L| == |t.ids|
    requires PassState(t, adj, L, swaps, ga, gb, d)
    ensures PoolsIn(adj, d, ga, gb) && forall p :: 0 <= p < |ga| ==> ga[p] !in gb
  {
    forall p | 0 <= p < |ga|
      ensures ga[p] < |adj| && ga[p] !in gb
    {
      assert ga[p] in ga;
    }
    forall q | 0 <= q < |gb|
      ensures gb[q] < |adj|
    {
      assert gb[q] in gb;
    }
  }

  /** After one more exchange, a vertex is unvisited when it was before and is not the one taken. */
  lemma PoolAfter(L: seq<Label>, swaps: seq<Swap>, s: Swap, x: nat)
    ensures InPoolA(L, swaps + [s], x) <==> InPoolA(L, swaps, x) && x != s.a
    ensures InPoolB(L, swaps + [s], x) <==> InPoolB(L, swaps, x) && x != s.b
  {
    var ext := swaps + [s];
    assert ext[|swaps|] == s;
    assert forall i :: 0 <= i < |swaps| ==> ext[i] == swaps[i];
  }

  /** The labels of the vertices a pass has not visited are those the pass started from. */
  lemma PoolLabels(t: Topology, adj: seq<seq<nat>>, L: seq<Label>, swaps: seq<Swap>, x: nat)
    requires WellFormed(t) && Wellwired(t, adj) && |L| == |t.ids|
    requires Greedy(t, adj, L, swaps) && (InPoolA(L, swaps, x) || InPoolB(L, swaps, x))
    ensures Tentative(L, swaps)[x] == L[x]
  {
    assert swaps[..|swaps|] == swaps;
    PoolKeepsLabel(L, swaps, |swaps|, x);
  }

  /**
   * One step of a pass keeps its state: the selected pair extends the
   * greedy exchanges, the pools lose exactly that pair, and the updated
   * D-values are exact under the labels with the pair exchanged.
   */
  lemma PassStep(t: Topology, adj: seq<seq<nat>>, L: seq<Label>, swaps: seq<Swap>,
                 ga: seq<nat>, gb: seq<nat>, d: seq<int>, i: nat, j: nat, g: int, r: seq<int>)
    requires WellFormed(t) && Wellwired(t, adj) && |L| == |t.ids|
    requires PassState(t, adj, L, swaps, ga, gb, d)
    requires PoolsIn(adj, d, ga, gb) && i < |ga| && j < |gb| && g == GainAt(adj, d, ga, gb, i, j)
    requires forall p, q :: 0 <= p < |ga| && 0 <= q < |gb| ==> GainAt(adj, d, ga, gb, p, q) <= g
    requires forall p, q :: 0 <= p < |ga| && 0 <= q < |gb| && Before(p, q, i, j) ==> GainAt(adj, d, ga, gb, p, q) < g
    requires PoolsIn(adj, d, ga[..i] + ga[i + 1..], gb[..j] + gb[j + 1..])
    requires UpdatedBy(adj, d, ga[..i] + ga[i + 1..], gb[..j] + gb[j + 1..], ga[i], gb[j], r)
    ensures PassState(t, adj, L, swaps + [Swap(ga[i], gb[j], g)], ga[..i] + ga[i + 1..], gb[..j] + gb[j + 1..], r)
  {
    var s := Swap(ga[i], gb[j], g);
    var ext := swaps + [s];
    var ga', gb' := ga[..i] + ga[i + 1..], gb[..j] + gb[j + 1..];
    assert InPoolA(L, swaps, s.a) && InPoolB(L, swaps, s.b) by {
      assert ga[i] in ga && gb[j] in gb;
    }
    assert Greedy(t, adj, L, ext) by {
      SelectionIsBest(t, adj, L, swaps, d, ga, gb, i, j, g);
      GreedyExtend(t, adj, L, swaps, s);
    }
    assert Increasing(ga') && Increasing(gb')
        && (forall x :: x in ga' <==> InPoolA(L, ext, x))
        && (forall y :: y in gb' <==> InPoolB(L, ext, y)) by {
      RemoveAt(ga, i);
      RemoveAt(gb, j);
      forall x
        ensures (x in ga' <==> InPoolA(L, ext, x)) && (x in gb' <==> InPoolB(L, ext, x))
      {
        PoolAfter(L, swaps, s, x);
      }
    }
    DStep(t, adj, L, swaps, s, d, ga', gb', r);
    PassStateIntro(t, adj, L, ext, ga', gb', r);
  }

  lemma PassStateIntro(t: Topology, adj: seq<seq<nat>>, L: seq<Label>, swaps: seq<Swap>,
                       ga: seq<nat>, gb: seq<nat>, d: seq<int>)
    requires WellFormed(t) && Wellwired(t, adj) && |L| == |t.ids|
    requires Greedy(t, adj, L, swaps) && Increasing(ga) && Increasing(gb)
    requires forall x :: x in ga <==> InPoolA(L, swaps, x)
    requires forall y :: y in gb <==> InPoolB(L, swaps, y)
    requires |d| == |L|
    requires forall x: nat :: InPoolA(L, swaps, x) || InPoolB(L, swaps, x) ==> d[x] == DValueOf(t, adj, Tentative(L, swaps), x)
    ensures PassState(t, adj, L, swaps, ga, gb, d)
  {
  }

  /** The D-value update keeps the D-values of the unvisited vertices exact. */
  lemma DStep(t: Topology, adj: seq<seq<nat>>, L: seq<Label>, swaps: seq<Swap>, s: Swap,
              d: seq<int>, ga: seq<nat>, gb: seq<nat>, r: seq<int>)
    requires WellFormed(t) && Wellwired(t, adj) && |L| == |t.ids| && |d| == |L|
    requires Greedy(t, adj, L, swaps) && InPoolA(L, swaps, s.a) && InPoolB(L, swaps, s.b)
    requires forall x: nat :: InPoolA(L, swaps, x) || InPoolB(L, swaps, x) ==> d[x] == DValueOf(t, adj, Tentative(L, swaps), x)
    requires forall x :: x in ga <==> InPoolA(L, swaps + [s], x)
    requires forall y :: y in gb <==> InPoolB(L, swaps + [s], y)
    requires PoolsIn(adj, d, ga, gb) && UpdatedBy(adj, d, ga, gb, s.a, s.b, r)
    ensures forall x: nat :: InPoolA(L, swaps + [s], x) || InPoolB(L, swaps + [s], x)
              ==> r[x] == DValueOf(t, adj, Tentative(L, swaps + [s]), x)
  {
    var ext := swaps + [s];
    var T := Tentative(L, swaps);
    assert ext[..|swaps|] == swaps;
    assert Tentative(L, ext) == Exchanged(T, s);
    PoolLabels(t, adj, L, swaps, s.a);
    PoolLabels(t, adj, L, swaps, s.b);
    forall x: nat | InPoolA(L, ext, x) || InPoolB(L, ext, x)
      ensures r[x] == DValueOf(t, adj, Exchanged(T, s), x)
    {
      PoolAfter(L, swaps, s, x);
      assert x != s.a && x != s.b;
      PoolLabels(t, adj, L, swaps, x);
      assert d[x] == DValueOf(t, adj, T, x);
      IncrementalD(t, adj, T, s, x);
      if InPoolA(L, ext, x) {
        assert x in ga;
      } else {
        assert x in gb;
      }
    }
  }

  /** Taking the i-th entries out of two pools leaves pools of the graph that are still increasing and apart. */
  lemma RemainingPools(adj: seq<seq<nat>>, d: seq<int>, ga: seq<nat>, gb: seq<nat>, i: nat, j: nat)
    requires PoolsIn(adj, d, ga, gb) && Increasing(ga) && Increasing(gb) && i < |ga| && j < |gb|
    requires forall p :: 0 <= p < |ga| ==> ga[p] !in gb
    ensures var ga', gb' := ga[..i] + ga[i + 1..], gb[..j] + gb[j + 1..];
      && PoolsIn(adj, d, ga', gb') && Increasing(ga') && Increasing(gb')
      && |ga'| == |ga| - 1 && |gb'| == |gb| - 1
      && forall p :: 0 <= p < |ga'| ==> ga'[p] !in gb'
  {
    RemoveAt(ga, i);
    RemoveAt(gb, j);
    var ga', gb' := ga[..i] + ga[i + 1..], gb[..j] + gb[j + 1..];
    forall p | 0 <= p < |ga'|
      ensures ga'[p] < |adj| && ga'[p] !in gb'
    {
      assert ga'[p] in ga;
      var p0 :| 0 <= p0 < |ga| && ga[p0] == ga'[p];
    }
    forall q | 0 <= q < |gb'|
      ensures gb'[q] < |adj|
    {
      assert gb'[q] in gb;
    }
  }

  /**
   * The prefix choice: the smallest j >= 1 whose prefix sum of gains is
   * maximal, with that sum; no prefix at all when the pass recorded no gains.
   */
  method BestPrefix(swaps: seq<Swap>) returns (jmax: nat, gmax: Option<int>)
    ensures gmax.None? <==> |swaps| == 0
    ensures gmax.None? ==> jmax == 0
    ensures gmax.Some? ==> BestPrefixAt(swaps, jmax) && gmax.value == PrefixSum(swaps, jmax)
  {
    gmax, jmax := None, 0;
    var j := 1;
    while j <= |swaps|
      invariant 1 <= j <= |swaps| + 1
      invariant gmax.None? <==> j == 1
      invariant gmax.None? ==> jmax == 0
      invariant gmax.Some? ==> 1 <= jmax < j && gmax.value == PrefixSum(swaps, jmax)
      invariant gmax.Some? ==> forall j' :: 1 <= j' < j ==> PrefixSum(swaps, j') <= gmax.value
      invariant gmax.Some? ==> forall j' :: 1 <= j' < jmax ==> PrefixSum(swaps, j') < gmax.value
    {
      var gsum := 0;
      var i := 0;
      while i < j
        invariant 0 <= i <= j
        invariant gsum == PrefixSum(swaps, i)
      {
        gsum := gsum + swaps[i].gain;
        i := i + 1;
      }
      if gmax.None? || gsum > gmax.value {
        gmax, jmax := Some(gsum), j;
      }
      j := j + 1;
    }
  }

  /** j is the smallest prefix length with the largest sum of gains. */
  predicate BestPrefixAt(swaps: seq<Swap>, j: nat)
  {
    && 1 <= j <= |swaps|
    && (forall i :: 1 <= i <= |swaps| ==> PrefixSum(swaps, i) <= PrefixSum(swaps, j))
    && (forall i :: 1 <= i < j ==> PrefixSum(swaps, i) < PrefixSum(swaps, j))
  }

  /**
   * One committed round: the greedy pass from L has a best prefix with a
   * positive sum g, and L' is L with the exchanges of that prefix made.
   */
  ghost predicate Committed(t: Topology, adj: seq<seq<nat>>, L: seq<Label>, L': seq<Label>, g: int)
  {
    && WellFormed(t) && Wellwired(t, adj) && |L| == |t.ids|
    && exists swaps: seq<Swap>, j: nat ::
      && |swaps| == |L| / 2 && Greedy(t, adj, L, swaps) && BestPrefixAt(swaps, j)
      && g == PrefixSum(swaps, j) && g > 0 && L' == Tentative(L, swaps[..j])
  }

  /** The greedy pass from L has no prefix with a positive sum of gains, so the main loop stops at L. */
  ghost predicate NoPositivePrefix(t: Topology, adj: seq<seq<nat>>, L: seq<Label>)
    requires WellFormed(t) && Wellwired(t, adj) && |L| == |t.ids|
  {
    forall swaps: seq<Swap> :: |swaps| == |L| / 2 && Greedy(t, adj, L, swaps) ==>
      forall j :: 1 <= j <= |swaps| ==> PrefixSum(swaps, j) <= 0
  }

  /** A committed round is witnessed by its pass and the length of its prefix. */
  lemma CommittedBy(t: Topology, adj: seq<seq<nat>>, L: seq<Label>, L': seq<Label>, swaps: seq<Swap>, j: nat)
    requires WellFormed(t) && Wellwired(t, adj) && |L| == |t.ids|
    requires |swaps| == |L| / 2 && Greedy(t, adj, L, swaps) && BestPrefixAt(swaps, j)
    requires PrefixSum(swaps, j) > 0 && L' == Tentative(L, swaps[..j])
    ensures Committed(t, adj, L, L', PrefixSum(swaps, j))
  {
  }

  /** Since the greedy pass is unique, one greedy pass with no positive prefix shows that none has one. */
  lemma NoPositivePrefixBy(t: Topology, adj: seq<seq<nat>>, L: seq<Label>, swaps: seq<Swap>)
    requires WellFormed(t) && Wellwired(t, adj) && |L| == |t.ids|
    requires |swaps| == |L| / 2 && Greedy(t, adj, L, swaps)
    requires forall j :: 1 <= j <= |swaps| ==> PrefixSum(swaps, j) <= 0
    ensures NoPositivePrefix(t, adj, L)
  {
    forall other: seq<Swap> | |other| == |L| / 2 && Greedy(t, adj, L, other)
      ensures forall j :: 1 <= j <= |other| ==> PrefixSum(other, j) <= 0
    {
      GreedyUnique(t, adj, L, swaps, other);
    }
  }
}
