/** What one descent through the graph may do, and how descents follow one another (msticker.c). */
module Descents {
  import opened FilterGraph
  import opened Schedules

  /** The stamps and the deferred list before and after a descent. */
  datatype State = State(visited: set<Filter>, deferred: seq<Filter>)

  ghost predicate LeadsInto(gr: Graph, log: seq<Filter>, s: set<Filter>)
    requires ValidGraph(gr)
  {
    forall f, g :: f in log && f in gr.nodes && g in gr.succ[f] ==> g in s
  }

  /**
   * From one state to another, running the filters of a log and deferring others, all within a
   * closed set. Filters of the frontier may be left untouched; nothing else becomes ready.
   */
  ghost predicate Descent(gr: Graph, reach: set<Filter>, force: bool, a: State, b: State, log: seq<Filter>,
      frontier: set<Filter>)
    requires ValidGraph(gr)
  {
    && a.visited <= b.visited <= gr.nodes && Elements(log) == b.visited - a.visited && NoDuplicates(log)
    && Elements(log) <= reach
    && Elements(a.deferred) <= Elements(b.deferred) <= Elements(a.deferred) + reach
    && (force ==> b.deferred == a.deferred)
    && LeadsInto(gr, log, b.visited + Elements(b.deferred) + frontier)
    && (!force ==> Ordered(gr, a.visited, log))
    && Ready(gr, b.visited) <= Ready(gr, a.visited) + frontier
  }

  /** A filter is dealt with when it ran or was deferred, and does not wait to run. */
  ghost predicate Settled(gr: Graph, f: Filter, s: State)
    requires ValidGraph(gr)
  {
    f in s.visited + Elements(s.deferred) && f !in Ready(gr, s.visited)
  }

  lemma ConcatenatedElements(log1: seq<Filter>, log2: seq<Filter>)
    ensures Elements(log1 + log2) == Elements(log1) + Elements(log2)
  {
  }

  lemma ConcatenatedNoDuplicates(log1: seq<Filter>, log2: seq<Filter>)
    requires NoDuplicates(log1) && NoDuplicates(log2) && Elements(log1) !! Elements(log2)
    ensures NoDuplicates(log1 + log2)
  {
    assert forall i :: 0 <= i < |log1| ==> log1[i] in Elements(log1);
    assert forall i :: 0 <= i < |log2| ==> log2[i] in Elements(log2);
  }

  lemma ConcatenatedOrdered(gr: Graph, visited: set<Filter>, log1: seq<Filter>, log2: seq<Filter>)
    requires ValidGraph(gr) && Ordered(gr, visited, log1) && Ordered(gr, visited + Elements(log1), log2)
    ensures Ordered(gr, visited, log1 + log2)
  {
    var log := log1 + log2;
    forall i | 0 <= i < |log|
      ensures log[i] in gr.nodes && gr.pred[log[i]] <= visited + Elements(log[..i])
    {
      if i < |log1| {
        assert log[..i] == log1[..i];
      } else {
        var j := i - |log1|;
        assert log[..i] == log1 + log2[..j];
        ConcatenatedElements(log1, log2[..j]);
      }
    }
  }

  /** A descent followed by one that settles a filter of the frontier. */
  lemma DescentThen(gr: Graph, reach: set<Filter>, force: bool, a: State, b: State, c: State,
                    log1: seq<Filter>, log2: seq<Filter>, frontier: set<Filter>, f: Filter)
    requires ValidGraph(gr) && Closed(gr, reach)
    requires Descent(gr, reach, force, a, b, log1, frontier + {f})
    requires Descent(gr, reach, force, b, c, log2, {}) && Settled(gr, f, c)
    ensures Descent(gr, reach, force, a, c, log1 + log2, frontier)
  {
    hide Ordered, NoDuplicates;
    var log := log1 + log2;
    ConcatenatedElements(log1, log2);
    ConcatenatedNoDuplicates(log1, log2);
    if !force {
      assert b.visited == a.visited + Elements(log1);
      ConcatenatedOrdered(gr, a.visited, log1, log2);
    }
    var s1, s2, s := b.visited + Elements(b.deferred) + (frontier + {f}), c.visited + Elements(c.deferred) + {},
      c.visited + Elements(c.deferred) + frontier;
    assert LeadsInto(gr, log, s) by {
      assert LeadsInto(gr, log1, s1) && LeadsInto(gr, log2, s2);
      assert s1 <= s && s2 <= s;
    }
  }

  /** A filter that was run leaves its successors on the frontier. */
  lemma DescentStarts(gr: Graph, reach: set<Filter>, force: bool, a: State, b: State, f: Filter)
    requires ValidGraph(gr) && Closed(gr, reach) && f in reach && f !in a.visited && a.visited <= gr.nodes
    requires b == State(a.visited + {f}, a.deferred)
    requires !force ==> gr.pred[f] <= a.visited
    ensures Descent(gr, reach, force, a, b, [f], gr.succ[f])
    ensures Settled(gr, f, b)
  {
    assert Elements([f]) == {f};
    if !force {
      assert [f][..0] == [];
    }
    forall g | g in Ready(gr, b.visited)
      ensures g in Ready(gr, a.visited) + gr.succ[f]
    {
      if g !in Ready(gr, a.visited) {
        assert f in gr.pred[g];
      }
    }
  }

  lemma DescentStays(gr: Graph, reach: set<Filter>, force: bool, a: State)
    requires ValidGraph(gr) && a.visited <= gr.nodes
    ensures Descent(gr, reach, force, a, a, [], {})
  {
  }

  lemma DescentDefers(gr: Graph, reach: set<Filter>, a: State, f: Filter)
    requires ValidGraph(gr) && a.visited <= gr.nodes && f in reach && f in gr.nodes && !(gr.pred[f] <= a.visited)
    ensures Descent(gr, reach, false, a, State(a.visited, [f] + a.deferred), [], {})
    ensures Settled(gr, f, State(a.visited, [f] + a.deferred))
  {
    ConcatenatedElements([f], a.deferred);
    assert f in [f];
  }

  lemma DescentNarrows(gr: Graph, reach: set<Filter>, force: bool, a: State, b: State, log: seq<Filter>,
                       wide: set<Filter>, narrow: set<Filter>)
    requires ValidGraph(gr) && Descent(gr, reach, force, a, b, log, wide) && wide <= narrow
    ensures Descent(gr, reach, force, a, b, log, narrow)
  {
    hide Ordered, NoDuplicates;
    assert b.visited + Elements(b.deferred) + wide <= b.visited + Elements(b.deferred) + narrow;
  }

  lemma DescentOnlyAdds(gr: Graph, reach: set<Filter>, force: bool, a: State, b: State, log: seq<Filter>,
      frontier: set<Filter>, f: Filter)
    requires ValidGraph(gr) && Descent(gr, reach, force, a, b, log, frontier) && Settled(gr, f, a) && f in gr.nodes
    ensures a.visited <= b.visited
    ensures frontier == {} ==> Settled(gr, f, b)
  {
  }

  lemma VisitedIsSettled(gr: Graph, f: Filter, s: State)
    requires ValidGraph(gr) && f in s.visited
    ensures Settled(gr, f, s)
  {
  }

  // ----- A pass over a list -----

  /** All of a list has run, in a first part in order and then, if something was left over, by force. */
  ghost predicate Pass(gr: Graph, reach: set<Filter>, list: seq<Filter>, force: bool, visited: set<Filter>,
      visited': set<Filter>,
                       log: seq<Filter>, k: nat)
    requires ValidGraph(gr)
  {
    && Elements(list) <= visited' && visited <= visited' && k <= |log|
    && NoDuplicates(log) && Elements(log) == visited' - visited && Elements(log) <= reach
    && LeadsInto(gr, log, visited')
    && (!force ==> Ordered(gr, visited, log[..k]) &&
                   Ready(gr, visited + Elements(log[..k])) <= Ready(gr, visited) - Elements(list))
  }

  /** Every element of a list has been settled. */
  ghost predicate AllSettled(gr: Graph, list: seq<Filter>, s: State)
    requires ValidGraph(gr)
  {
    forall f :: f in list ==> Settled(gr, f, s)
  }

  /** One more element of a list. */
  lemma DescentNext(gr: Graph, reach: set<Filter>, force: bool, list: seq<Filter>, i: nat, a: State, b: State, c: State,
                    log1: seq<Filter>, log2: seq<Filter>)
    requires ValidGraph(gr) && Closed(gr, reach) && Elements(list) <= reach && i < |list|
    requires Descent(gr, reach, force, a, b, log1, {}) && AllSettled(gr, list[..i], b)
    requires Descent(gr, reach, force, b, c, log2, {}) && Settled(gr, list[i], c)
    ensures Descent(gr, reach, force, a, c, log1 + log2, {})
    ensures AllSettled(gr, list[..i + 1], c)
  {
    hide Descent, Settled;
    DescentNarrows(gr, reach, force, a, b, log1, {}, {} + {list[i]});
    DescentThen(gr, reach, force, a, b, c, log1, log2, {}, list[i]);
    forall f | f in list[..i + 1]
      ensures Settled(gr, f, c)
    {
      if f in list[..i] {
        assert f in Elements(list);
        DescentOnlyAdds(gr, reach, force, b, c, log2, {}, f);
      }
    }
  }

  /** A pass that defers nothing is complete. */
  lemma CompletePass(gr: Graph, reach: set<Filter>, list: seq<Filter>, force: bool, a: State, b: State,
      log: seq<Filter>)
    requires ValidGraph(gr) && Closed(gr, reach) && Elements(list) <= reach && a.visited <= gr.nodes
    requires Descent(gr, reach, force, a, b, log, {}) && AllSettled(gr, list, b) && b.deferred == []
    ensures Pass(gr, reach, list, force, a.visited, b.visited, log, |log|)
  {
    hide Ordered, NoDuplicates;
    assert log[..|log|] == log;
    assert b.visited + Elements(b.deferred) + {} == b.visited;
    assert a.visited + Elements(log) == b.visited;
    assert forall f :: f in Elements(list) ==> Settled(gr, f, b);
  }

  /** A first pass and the forced pass over what it deferred. */
  lemma PassThenForced(gr: Graph, reach: set<Filter>, list: seq<Filter>, a: State, b: State, log1: seq<Filter>,
                       visited': set<Filter>, log2: seq<Filter>, k: nat)
    requires ValidGraph(gr) && Closed(gr, reach) && Elements(list) <= reach
    requires Descent(gr, reach, false, a, b, log1, {}) && AllSettled(gr, list, b)
    requires Pass(gr, reach, b.deferred, true, b.visited, visited', log2, k)
    ensures Pass(gr, reach, list, false, a.visited, visited', log1 + log2, |log1|)
  {
    hide Ordered, NoDuplicates;
    var log := log1 + log2;
    assert log[..|log1|] == log1;
    ConcatenatedElements(log1, log2);
    ConcatenatedNoDuplicates(log1, log2);
    assert a.visited + Elements(log1) == b.visited;
    assert forall f :: f in Elements(list) ==> Settled(gr, f, b);
    assert b.visited + Elements(b.deferred) + {} <= visited';
    assert LeadsInto(gr, log1, b.visited + Elements(b.deferred) + {});
    assert LeadsInto(gr, log2, visited');
  }

  /** A pass in which nothing had run before is a whole tick. */
  lemma PassIsSchedule(gr: Graph, list: seq<Filter>, visited: set<Filter>, log: seq<Filter>, k: nat)
    requires ValidGraph(gr) && Elements(list) <= gr.nodes
    requires Pass(gr, Reached(gr, Elements(list)), list, false, {}, visited, log, k)
    ensures Scheduled(gr, list, log, k) && Elements(log) == visited && Closed(gr, visited)
  {
    hide Ordered, NoDuplicates, Reached;
    assert Closed(gr, visited) by {
      assert forall f :: f in visited ==> f in Elements(log);
    }
    ReachedIsLeast(gr, Elements(list), visited);
    assert {} + Elements(log[..k]) == Elements(log[..k]);
    assert Ready(gr, {}) == Roots(gr);
  }
}
