/**
 * The partitioner: the initial split, then passes of greedy tentative
 * exchanges, each followed by committing the best prefix of its
 * exchanges, until a pass gains nothing.
 */
module Partitioner {
  import opened GraphModel
  import opened CutCost
  import opened Gain
  import opened Graphs
  import opened Passes

  /** What a run reports: both cut costs, the gain of every committed pass, and the totals. */
  datatype Report = Report(initialCost: nat, passGains: seq<int>, passes: nat, totalGain: int, finalCost: nat, converged: bool)

  function Sum(s: seq<int>): int
  {
    if s == [] then 0 else Sum(s[..|s| - 1]) + s[|s| - 1]
  }

  class KernighanLin {
    const graph: Graph

    constructor (graph: Graph)
      ensures this.graph == graph
    {
      this.graph := graph;
    }

    /** The first floor(n/2) vertices go to side A, the others to side B. */
    method InitialSplit()
      requires graph.Valid()
      modifies graph.labels
      ensures graph.labels[..] == InitialLabels(|graph.ids|)
    {
      var n := graph.labels.Length;
      for i := 0 to n / 2
        invariant forall w :: 0 <= w < i ==> graph.labels[w] == A
      {
        graph.labels[i] := A;
      }
      for i := n / 2 to n
        invariant forall w :: 0 <= w < n / 2 ==> graph.labels[w] == A
        invariant forall w :: n / 2 <= w < i ==> graph.labels[w] == B
      {
        graph.labels[i] := B;
      }
    }

    /** The vertices of each side, in vertex order. */
    method Groups() returns (ga: seq<nat>, gb: seq<nat>)
      requires graph.Valid()
      ensures ga == Members(graph.labels[..], A) && gb == Members(graph.labels[..], B)
    {
      ga, gb := [], [];
      for i := 0 to graph.labels.Length
        invariant ga == Members(graph.labels[..i], A) && gb == Members(graph.labels[..i], B)
      {
        assert graph.labels[..i + 1][..i] == graph.labels[..i];
        if graph.labels[i] == A {
          ga := ga + [i];
        } else if graph.labels[i] == B {
          gb := gb + [i];
        }
      }
      assert graph.labels[..graph.labels.Length] == graph.labels[..];
    }

    /** The D-value of every vertex under the current labels. */
    method DValues() returns (d: seq<int>)
      requires graph.Valid()
      ensures |d| == |graph.ids|
      ensures forall v :: 0 <= v < |d| ==> d[v] == DValueOf(graph.Shape(), graph.adj, graph.labels[..], v)
    {
      d := [];
      for v := 0 to |graph.ids|
        invariant |d| == v
        invariant forall w :: 0 <= w < v ==> d[w] == DValueOf(graph.Shape(), graph.adj, graph.labels[..], w)
      {
        var dv := graph.DValue(v);
        d := d + [dv];
      }
    }

    /**
     * One pass: floor(n/2) times, pick the best pair of unvisited vertices,
     * mark both visited, record the pair with its gain, and update the
     * D-values of the unvisited vertices as if the pair were exchanged.
     * The labels themselves are not changed.
     */
    method Pass() returns (swaps: seq<Swap>)
      requires graph.Valid() && |Members(graph.labels[..], A)| == |graph.ids| / 2
      ensures |swaps| == |graph.ids| / 2
      ensures Greedy(graph.Shape(), graph.adj, graph.labels[..], swaps)
    {
      ghost var t, adj, L := graph.Shape(), graph.adj, graph.labels[..];
      var n := |graph.ids|;
      MembersSplit(L);
      var ga, gb := Groups();
      var d := DValues();
      swaps := [];
      PassStart(t, adj, L, d);
      for k := 0 to n / 2
        invariant |swaps| == k
        invariant |ga| == n / 2 - k && |gb| == n - n / 2 - k
        invariant PassState(t, adj, L, swaps, ga, gb, d)
      {
        PoolsReady(t, adj, L, swaps, ga, gb, d);
        var i, j, g := SelectPair(graph.adj, d, ga, gb);
        var a, b := ga[i], gb[j];
        RemainingPools(adj, d, ga, gb, i, j);
        var ga', gb' := ga[..i] + ga[i + 1..], gb[..j] + gb[j + 1..];
        var d' := UpdateD(graph.adj, d, ga', gb', a, b);
        PassStep(t, adj, L, swaps, ga, gb, d, i, j, g, d');
        swaps, ga, gb, d := swaps + [Swap(a, b, g)], ga', gb', d';
      }
    }

    /** Commits the first jmax exchanges: each recorded a goes to side B, and then its b to side A. */
    method Commit(swaps: seq<Swap>, jmax: nat)
      requires graph.Valid() && jmax <= |swaps|
      requires forall k :: 0 <= k < |swaps| ==> swaps[k].a < |graph.ids| && swaps[k].b < |graph.ids|
      modifies graph.labels
      ensures graph.labels[..] == Tentative(old(graph.labels[..]), swaps[..jmax])
    {
      var labels := graph.labels;
      for i := 0 to jmax
        invariant labels[..] == Tentative(old(labels[..]), swaps[..i])
      {
        ghost var before := labels[..];
        var s := swaps[i];
        for v := 0 to labels.Length
          invariant forall w :: 0 <= w < v ==> labels[w] == Exchanged(before, s)[w]
          invariant forall w :: v <= w < labels.Length ==> labels[w] == before[w]
        {
          if graph.ids[v] == graph.ids[s.a] {
            labels[v] := B;
          } else if graph.ids[v] == graph.ids[s.b] {
            labels[v] := A;
          }
        }
        assert labels[..] == Exchanged(before, s);
        assert swaps[..i + 1][..i] == swaps[..i];
      }
    }

    /**
     * One round of the main loop: a pass, the choice of its best prefix, and
     * the commit of that prefix when its gain is positive.  Returns the
     * committed gain, or nothing when the round commits nothing; the pass
     * and the prefix length it chose are returned as ghost results.
     */
    method PassAndCommit() returns (gMax: Option<int>, ghost swaps: seq<Swap>, ghost jmax: nat)
      requires graph.Valid() && |Members(graph.labels[..], A)| == |graph.ids| / 2
      modifies graph.labels
      ensures |swaps| == |graph.ids| / 2 && Greedy(graph.Shape(), graph.adj, old(graph.labels[..]), swaps)
      ensures |swaps| > 0 ==> BestPrefixAt(swaps, jmax)
      ensures gMax.Some? <==> |swaps| > 0 && PrefixSum(swaps, jmax) > 0
      ensures gMax.Some? ==> gMax.value == PrefixSum(swaps, jmax)
      ensures gMax.Some? ==> graph.labels[..] == Tentative(old(graph.labels[..]), swaps[..jmax])
      ensures gMax.None? ==> graph.labels[..] == old(graph.labels[..])
      ensures gMax.None? ==> NoPositivePrefix(graph.Shape(), graph.adj, graph.labels[..])
      ensures |Members(graph.labels[..], A)| == |graph.ids| / 2
      ensures gMax.Some? && Simple(graph.Shape()) ==>
                Cut(graph.Shape(), graph.labels[..]) == Cut(graph.Shape(), old(graph.labels[..])) - gMax.value
    {
      var pass := Pass();
      var j, gmax := BestPrefix(pass);
      swaps, jmax := pass, j;
      gMax := CommitBest(pass, j, gmax);
    }

    /**
     * The decision at the end of a pass: commits the chosen prefix of the
     * pass when its gain is positive, and otherwise leaves the labels as
     * they are.
     */
    method CommitBest(swaps: seq<Swap>, jmax: nat, gmax: Option<int>) returns (gMax: Option<int>)
      requires graph.Valid() && |Members(graph.labels[..], A)| == |graph.ids| / 2
      requires |swaps| == |graph.ids| / 2 && Greedy(graph.Shape(), graph.adj, graph.labels[..], swaps)
      requires gmax.None? <==> |swaps| == 0
      requires gmax.Some? ==> BestPrefixAt(swaps, jmax) && gmax.value == PrefixSum(swaps, jmax)
      modifies graph.labels
      ensures gMax.Some? <==> |swaps| > 0 && PrefixSum(swaps, jmax) > 0
      ensures gMax.Some? ==> gMax.value == PrefixSum(swaps, jmax)
      ensures gMax.Some? ==> graph.labels[..] == Tentative(old(graph.labels[..]), swaps[..jmax])
      ensures gMax.None? ==> graph.labels[..] == old(graph.labels[..])
      ensures gMax.None? ==> NoPositivePrefix(graph.Shape(), graph.adj, graph.labels[..])
      ensures |Members(graph.labels[..], A)| == |graph.ids| / 2
      ensures gMax.Some? && Simple(graph.Shape()) ==>
                Cut(graph.Shape(), graph.labels[..]) == Cut(graph.Shape(), old(graph.labels[..])) - gMax.value
    {
      if gmax.Some? && gmax.value > 0 {
        CommitEffect(graph.Shape(), graph.labels[..], swaps, jmax);
        Commit(swaps, jmax);
        gMax := gmax;
      } else {
        NoPositivePrefixBy(graph.Shape(), graph.adj, graph.labels[..], swaps);
        gMax := None;
      }
    }

    /**
     * The whole run: split, then passes until one finds no prefix with a
     * positive gain, committing the best prefix of every pass that does.
     * At most maxPasses passes are committed.  The ghost result lists the
     * labels after the split and after every committed pass.
     */
    method Partition(maxPasses: nat) returns (report: Report, ghost states: seq<seq<Label>>)
      requires graph.Valid()
      modifies graph.labels
      ensures report.initialCost == Cut(graph.Shape(), InitialLabels(|graph.ids|))
      ensures report.finalCost == Cut(graph.Shape(), graph.labels[..])
      ensures |Members(graph.labels[..], A)| == |graph.ids| / 2
      ensures report.passes == |report.passGains| <= maxPasses
      ensures |states| == report.passes + 1
      ensures states[0] == InitialLabels(|graph.ids|) && states[report.passes] == graph.labels[..]
      ensures forall k :: 0 <= k < report.passes ==>
                Committed(graph.Shape(), graph.adj, states[k], states[k + 1], report.passGains[k])
      ensures forall k :: 0 <= k < |report.passGains| ==> report.passGains[k] > 0
      ensures report.totalGain == Sum(report.passGains)
      ensures report.converged ==> NoPositivePrefix(graph.Shape(), graph.adj, graph.labels[..])
      ensures !report.converged ==> report.passes == maxPasses
      ensures Simple(graph.Shape()) ==> report.finalCost == report.initialCost - report.totalGain
      ensures Simple(graph.Shape()) ==> report.passes <= report.initialCost
      ensures Simple(graph.Shape()) && maxPasses > |graph.edges| ==> report.converged
    {
      var n := |graph.ids|;
      InitialSplit();
      InitialSizes(n);
      var initialCost := graph.PartitionCost();
      var gains, totalGain, converged;
      gains, totalGain, converged, states := MainLoop(maxPasses, initialCost);
      var finalCost := graph.PartitionCost();
      report := Report(initialCost, gains, |gains|, totalGain, finalCost, converged);
    }

    /**
     * The main loop, from labels whose cut cost is initialCost: rounds until
     * one commits nothing, or until maxPasses rounds have committed.
     */
    method MainLoop(maxPasses: nat, initialCost: nat) returns (gains: seq<int>, totalGain: int, converged: bool, ghost states: seq<seq<Label>>)
      requires graph.Valid() && |Members(graph.labels[..], A)| == |graph.ids| / 2
      requires initialCost == Cut(graph.Shape(), graph.labels[..])
      modifies graph.labels
      ensures |Members(graph.labels[..], A)| == |graph.ids| / 2
      ensures |gains| <= maxPasses && |states| == |gains| + 1
      ensures states[0] == old(graph.labels[..]) && states[|gains|] == graph.labels[..]
      ensures forall k :: 0 <= k < |gains| ==> Committed(graph.Shape(), graph.adj, states[k], states[k + 1], gains[k])
      ensures forall k :: 0 <= k < |gains| ==> gains[k] > 0
      ensures totalGain == Sum(gains) && totalGain >= |gains|
      ensures converged ==> NoPositivePrefix(graph.Shape(), graph.adj, graph.labels[..])
      ensures !converged ==> |gains| == maxPasses
      ensures Simple(graph.Shape()) ==> Cut(graph.Shape(), graph.labels[..]) == initialCost - totalGain
    {
      ghost var t, adj := graph.Shape(), graph.adj;
      var n := |graph.ids|;
      states := [graph.labels[..]];
      totalGain := 0;
      gains := [];
      converged := false;
      while |gains| < maxPasses
        invariant graph.Valid() && graph.adj == adj && !converged
        invariant |gains| <= maxPasses && |Members(graph.labels[..], A)| == n / 2
        invariant Recorded(t, adj, states, gains, totalGain)
        invariant states[0] == old(graph.labels[..]) && states[|gains|] == graph.labels[..]
        invariant Simple(t) ==> Cut(t, graph.labels[..]) == initialCost - totalGain
        decreases maxPasses - |gains|
      {
        ghost var before := graph.labels[..];
        var gMax, swaps, jmax := PassAndCommit();
        if gMax.Some? {
          CommittedBy(t, adj, before, graph.labels[..], swaps, jmax);
          RecordRound(t, adj, states, gains, totalGain, graph.labels[..], gMax.value);
          states, gains, totalGain := states + [graph.labels[..]], gains + [gMax.value], totalGain + gMax.value;
        } else {
          converged := true;
          break;
        }
      }
      RecordedGains(t, adj, states, gains, totalGain);
    }
  }

  /**
   * The rounds recorded so far: states[k + 1] and gains[k] come from the
   * round committed from states[k], and total is the sum of the gains.
   */
  ghost predicate Recorded(t: Topology, adj: seq<seq<nat>>, states: seq<seq<Label>>, gains: seq<int>, total: int)
  {
    && |states| == |gains| + 1
    && (forall k :: 0 <= k < |gains| ==> Committed(t, adj, states[k], states[k + 1], gains[k]))
    && total == Sum(gains)
  }

  /** Recording one more committed round. */
  lemma RecordRound(t: Topology, adj: seq<seq<nat>>, states: seq<seq<Label>>, gains: seq<int>, total: int, L': seq<Label>, g: int)
    requires Recorded(t, adj, states, gains, total) && Committed(t, adj, states[|gains|], L', g)
    ensures Recorded(t, adj, states + [L'], gains + [g], total + g)
  {
    ExtendRounds(t, adj, states, gains, L', g);
    SumSnoc(gains, g);
  }

  lemma SumSnoc(s: seq<int>, x: int)
    ensures Sum(s + [x]) == Sum(s) + x
  {
    assert (s + [x])[..|s|] == s;
  }

  lemma ExtendRounds(t: Topology, adj: seq<seq<nat>>, states: seq<seq<Label>>, gains: seq<int>, L': seq<Label>, g: int)
    requires |states| == |gains| + 1
    requires forall k :: 0 <= k < |gains| ==> Committed(t, adj, states[k], states[k + 1], gains[k])
    requires Committed(t, adj, states[|gains|], L', g)
    ensures forall k :: 0 <= k <= |gains| ==>
              Committed(t, adj, (states + [L'])[k], (states + [L'])[k + 1], (gains + [g])[k])
  {
    var states', gains' := states + [L'], gains + [g];
    forall k | 0 <= k <= |gains|
      ensures Committed(t, adj, states'[k], states'[k + 1], gains'[k])
    {
      if k < |gains| {
        assert states'[k] == states[k] && states'[k + 1] == states[k + 1] && gains'[k] == gains[k];
      } else {
        assert states'[k] == states[k] && states'[k + 1] == L' && gains'[k] == g;
      }
    }
  }

  /** Every recorded gain is positive, so the total is at least the number of rounds. */
  lemma {:induction false} RecordedGains(t: Topology, adj: seq<seq<nat>>, states: seq<seq<Label>>, gains: seq<int>, total: int)
    requires Recorded(t, adj, states, gains, total)
    ensures forall k :: 0 <= k < |gains| ==> gains[k] > 0
    ensures total >= |gains|
  {
    forall k | 0 <= k < |gains|
      ensures gains[k] > 0
    {
      assert Committed(t, adj, states[k], states[k + 1], gains[k]);
    }
    SumOfPositives(gains);
  }

  lemma {:induction false} SumOfPositives(s: seq<int>)
    requires forall k :: 0 <= k < |s| ==> s[k] > 0
    ensures Sum(s) >= |s|
  {
    if s != [] {
      SumOfPositives(s[..|s| - 1]);
    }
  }
}
