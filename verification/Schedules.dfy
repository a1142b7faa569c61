/** What a tick owes to the graph, as values: who runs, and in which order. */
module Schedules {
  import opened FilterGraph

  ghost function Elements(list: seq<Filter>): set<Filter> {
    set f | f in list
  }

  ghost predicate NoDuplicates(list: seq<Filter>) {
    forall i, j :: 0 <= i < j < |list| ==> list[i] != list[j]
  }

  lemma PrefixLacksNext(list: seq<Filter>, k: nat)
    requires NoDuplicates(list) && k < |list|
    ensures list[k] !in list[..k]
  {
  }

  // ----- Reachability -----

  ghost predicate Closed(gr: Graph, s: set<Filter>)
    requires ValidGraph(gr)
  {
    s <= gr.nodes && forall f, g :: f in s && g in gr.succ[f] ==> g in s
  }

  ghost function Successors(gr: Graph, s: set<Filter>): set<Filter>
    requires ValidGraph(gr) && s <= gr.nodes
  {
    set f, g | f in s && g in gr.succ[f] :: g
  }

  /** Everything downstream of some filters, themselves included. */
  ghost function Reached(gr: Graph, from: set<Filter>): (reached: set<Filter>)
    requires ValidGraph(gr) && from <= gr.nodes
    ensures from <= reached && Closed(gr, reached)
    decreases gr.nodes - from
  {
    var next := from + Successors(gr, from);
    if next == from then from else Reached(gr, next)
  }

  lemma {:induction false} ReachedIsLeast(gr: Graph, from: set<Filter>, s: set<Filter>)
    requires ValidGraph(gr) && from <= s && Closed(gr, s)
    ensures Reached(gr, from) <= s
    decreases gr.nodes - from
  {
    var next := from + Successors(gr, from);
    if next != from {
      ReachedIsLeast(gr, next, s);
    }
  }

  // ----- Order -----

  /** Not run yet, with everything upstream run. */
  ghost function Ready(gr: Graph, visited: set<Filter>): set<Filter>
    requires ValidGraph(gr)
  {
    set f | f in gr.nodes && f !in visited && gr.pred[f] <= visited
  }

  ghost function Roots(gr: Graph): set<Filter>
    requires ValidGraph(gr)
  {
    set f | f in gr.nodes && gr.pred[f] == {}
  }

  /** Each filter runs after everything upstream of it. */
  ghost predicate Ordered(gr: Graph, visited: set<Filter>, log: seq<Filter>)
    requires ValidGraph(gr)
  {
    forall i :: 0 <= i < |log| ==> log[i] in gr.nodes && gr.pred[log[i]] <= visited + Elements(log[..i])
  }

  ghost predicate PredClosed(gr: Graph, visited: set<Filter>)
    requires ValidGraph(gr)
  {
    forall f :: f in visited && f in gr.nodes ==> gr.pred[f] <= visited
  }

  /**
   * One tick over an execution list: every filter downstream of the list runs exactly once, the
   * first k of them in order; they are stopped only by filters that never become ready.
   */
  ghost predicate Scheduled(gr: Graph, list: seq<Filter>, log: seq<Filter>, k: nat)
    requires ValidGraph(gr) && Elements(list) <= gr.nodes
  {
    && NoDuplicates(log) && Elements(log) == Reached(gr, Elements(list))
    && k <= |log| && Ordered(gr, {}, log[..k])
    && Ready(gr, Elements(log[..k])) <= Roots(gr) - Elements(list)
  }

  /** Filters that each wait for another of them, or are roots that are not in the list. */
  ghost predicate Stuck(gr: Graph, list: seq<Filter>, s: set<Filter>)
    requires ValidGraph(gr)
  {
    s <= gr.nodes &&
    forall f :: f in s ==> (f in Roots(gr) && f !in list) || exists g :: g in s && g in gr.pred[f]
  }

  lemma {:induction false} StuckNeverOrdered(gr: Graph, list: seq<Filter>, log: seq<Filter>, s: set<Filter>, i: nat)
    requires ValidGraph(gr) && Stuck(gr, list, s)
    requires Ordered(gr, {}, log) && Elements(log) * Roots(gr) <= Elements(list)
    requires i < |log|
    ensures log[i] !in s
  {
    var f := log[i];
    if f in s {
      assert f in Elements(log);
      assert !(f in Roots(gr) && f !in list) by {
        if f in Roots(gr) { assert f in Elements(list); }
      }
      var g :| g in s && g in gr.pred[f];
      assert g in Elements(log[..i]);
      var j :| 0 <= j < i && log[j] == g;
      StuckNeverOrdered(gr, list, log, s, j);
    }
  }

  /** Roots enter a log only through the list: everything else reached lies downstream of something. */
  lemma ReachedRootsAreListed(gr: Graph, from: set<Filter>)
    requires ValidGraph(gr) && from <= gr.nodes
    ensures Reached(gr, from) * Roots(gr) <= from
  {
    var s := set f | f in gr.nodes && (f in from || f !in Roots(gr));
    assert Closed(gr, s) by {
      forall f, g | f in s && g in gr.succ[f]
        ensures g in s
      {
        assert f in gr.pred[g];
      }
    }
    ReachedIsLeast(gr, from, s);
  }

  /** The first pass runs exactly the filters that are in no stuck set; the rest are left to the forced pass. */
  lemma FirstPassRunsTheUnstuck(gr: Graph, list: seq<Filter>, log: seq<Filter>, k: nat, f: Filter)
    requires ValidGraph(gr) && Elements(list) <= gr.nodes && Scheduled(gr, list, log, k) && f in gr.nodes
    ensures f in log[..k] <==> !exists s :: s <= gr.nodes && Stuck(gr, list, s) && f in s
  {
    var first := Elements(log[..k]);
    assert first * Roots(gr) <= Elements(list) by {
      ReachedRootsAreListed(gr, Elements(list));
      assert first <= Elements(log);
    }
    var rest := gr.nodes - first;
    assert Stuck(gr, list, rest) by {
      forall g | g in rest
        ensures (g in Roots(gr) && g !in list) || exists h :: h in rest && h in gr.pred[g]
      {
        if g in Ready(gr, first) {
          assert g in Roots(gr) - Elements(list);
        } else {
          var h :| h in gr.pred[g] && h !in first;
          assert h in rest;
        }
      }
    }
    forall s | s <= gr.nodes && Stuck(gr, list, s) && f in s
      ensures f !in log[..k]
    {
      forall i | 0 <= i < k
        ensures log[..k][i] !in s
      {
        StuckNeverOrdered(gr, list, log[..k], s, i);
      }
    }
    assert f in rest <==> f !in log[..k];
  }

  /** A graph without loops: every link goes up in rank. */
  ghost predicate Ranked(gr: Graph, rank: map<Filter, nat>)
    requires ValidGraph(gr)
  {
    rank.Keys == gr.nodes && forall f, g :: f in gr.nodes && g in gr.pred[f] ==> rank[g] < rank[f]
  }

  lemma {:induction false} RankedIsNeverStuck(gr: Graph, rank: map<Filter, nat>, list: seq<Filter>, s: set<Filter>,
      f: Filter)
    requires ValidGraph(gr) && Ranked(gr, rank) && Roots(gr) <= Elements(list)
    requires Stuck(gr, list, s)
    ensures f !in s
    decreases if f in rank then rank[f] else 0
  {
    if f in s {
      assert !(f in Roots(gr) && f !in list) by {
        if f in Roots(gr) { assert f in Elements(list); }
      }
      var g :| g in s && g in gr.pred[f];
      RankedIsNeverStuck(gr, rank, list, s, g);
    }
  }

  /** Without loops, and with every root in the list, one pass runs all filters, each after its inputs. */
  lemma AcyclicRunsInOrder(gr: Graph, rank: map<Filter, nat>, list: seq<Filter>, log: seq<Filter>, k: nat)
    requires ValidGraph(gr) && Elements(list) <= gr.nodes && Scheduled(gr, list, log, k)
    requires Ranked(gr, rank) && Roots(gr) <= Elements(list)
    ensures k == |log| && NoDuplicates(log) && Elements(log) == gr.nodes && Ordered(gr, {}, log)
  {
    forall f | f in gr.nodes
      ensures f in log[..k]
    {
      FirstPassRunsTheUnstuck(gr, list, log, k, f);
      forall s | s <= gr.nodes && Stuck(gr, list, s)
        ensures f !in s
      {
        RankedIsNeverStuck(gr, rank, list, s, f);
      }
    }
    assert forall i :: 0 <= i < |log| ==> log[i] in Elements(log);
    if k < |log| {
      PrefixLacksNext(log, k);
      assert false;
    }
    assert log[..k] == log;
  }
}
