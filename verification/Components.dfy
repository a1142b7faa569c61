/** Finding the filters connected to a filter (msticker.c). */
module Components {
  import opened FilterGraph
  import opened Schedules
  import opened Descents
  import opened Tickers

  // ----- Connected filters -----

  /** The wiring with the direction of the links forgotten. */
  ghost function Undirected(gr: Graph): (un: Graph)
    requires ValidGraph(gr)
    ensures ValidGraph(un) && un.nodes == gr.nodes
  {
    var both := map f | f in gr.nodes :: gr.succ[f] + gr.pred[f];
    Graph(gr.nodes, both, both)
  }

  /** The filters connected to a filter, in either direction. */
  ghost function Component(gr: Graph, f: Filter): (connected: set<Filter>)
    requires ValidGraph(gr) && f in gr.nodes
    ensures f in connected && Closed(Undirected(gr), connected)
  {
    Reached(Undirected(gr), {f})
  }

  ghost function Seen(nodes: set<Filter>): set<Filter>
    reads nodes`seen
  {
    set f | f in nodes && f.seen
  }

  lemma SeenIs(nodes: set<Filter>)
    ensures Seen(nodes) <= nodes && forall f :: f in Seen(nodes) <==> f in nodes && f.seen
  {
  }

  ghost function PrevsFrom(f: Filter, i: nat): set<Filter>
    reads f`inputs
  {
    set j | i <= j < |f.inputs| && f.inputs[j] != null :: f.inputs[j].prev
  }

  lemma PrevPin(f: Filter, i: nat)
    requires i < |f.inputs|
    ensures f.inputs[i] == null ==> PrevsFrom(f, i) == PrevsFrom(f, i + 1)
    ensures f.inputs[i] != null ==>
            PrevsFrom(f, i) == PrevsFrom(f, i + 1) + {f.inputs[i].prev} && f.inputs[i].prev in Prevs(f)
  {
  }

  lemma AllInputPins(f: Filter)
    ensures PrevsFrom(f, 0) == Prevs(f) && PrevsFrom(f, |f.inputs|) == {}
  {
  }

  lemma UndirectedNode(gr: Graph, f: Filter)
    requires Wired(gr) && ValidGraph(gr) && f in gr.nodes
    ensures Undirected(gr).succ[f] == Prevs(f) + Nexts(f)
  {
  }

  lemma ComponentNode(gr: Graph, connected: set<Filter>, f: Filter)
    requires Wired(gr) && ValidGraph(gr) && Closed(Undirected(gr), connected) && f in connected
    ensures f in gr.nodes && Prevs(f) <= connected && Nexts(f) <= connected
  {
  }

  /** A search of the connected filters, whose frontier has not been looked at yet. */
  ghost predicate Search(gr: Graph, connected: set<Filter>, before: set<Filter>, after: set<Filter>,
      found: seq<Filter>, frontier: set<Filter>)
    requires ValidGraph(gr)
  {
    Descent(Undirected(gr), connected, true, State(before, []), State(after, []), found, frontier)
  }

  lemma SearchStarts(gr: Graph, connected: set<Filter>, before: set<Filter>, f: Filter)
    requires Wired(gr) && ValidGraph(gr) && Closed(Undirected(gr), connected) && f in connected && f !in before
             && before <= gr.nodes
    ensures Search(gr, connected, before, before + {f}, [f], Prevs(f) + Nexts(f))
  {
    UndirectedNode(gr, f);
    DescentStarts(Undirected(gr), connected, true, State(before, []), State(before + {f}, []), f);
  }

  lemma SearchStays(gr: Graph, connected: set<Filter>, before: set<Filter>)
    requires ValidGraph(gr) && before <= gr.nodes
    ensures Search(gr, connected, before, before, [], {})
  {
    DescentStays(Undirected(gr), connected, true, State(before, []));
  }

  lemma SearchThen(gr: Graph, connected: set<Filter>, before: set<Filter>, middle: set<Filter>, after: set<Filter>,
                   found: seq<Filter>, more: seq<Filter>, frontier: set<Filter>, f: Filter)
    requires ValidGraph(gr) && Closed(Undirected(gr), connected)
    requires Search(gr, connected, before, middle, found, frontier + {f})
    requires Search(gr, connected, middle, after, more, {}) && f in after
    ensures Search(gr, connected, before, after, found + more, frontier)
    ensures middle <= after
  {
    var un := Undirected(gr);
    VisitedIsSettled(un, f, State(after, []));
    DescentThen(un, connected, true, State(before, []), State(middle, []), State(after, []), found, more, frontier, f);
  }

  /** A search that starts with nothing seen finds the connected filters, once each. */
  lemma SearchIsComponent(gr: Graph, f: Filter, after: set<Filter>, found: seq<Filter>)
    requires ValidGraph(gr) && f in gr.nodes && f in after
    requires Search(gr, Component(gr, f), {}, after, found, {})
    ensures NoDuplicates(found) && Elements(found) == Component(gr, f) == after
  {
    hide Reached, NoDuplicates;
    assert Closed(Undirected(gr), after) by {
      assert forall g :: g in after ==> g in Elements(found);
      assert after + Elements([]) + {} == after;
    }
    ReachedIsLeast(Undirected(gr), {f}, after);
  }

  method FindFilters(filters: seq<Filter>, f: Filter, ghost gr: Graph, ghost connected: set<Filter>)
    returns (filters': seq<Filter>, ghost found: seq<Filter>)
    requires Wired(gr) && ValidGraph(gr) && Closed(Undirected(gr), connected) && f in connected
    modifies gr.nodes`seen
    ensures filters' == filters + found
    ensures Search(gr, connected, old(Seen(gr.nodes)), Seen(gr.nodes), found, {})
    ensures f in Seen(gr.nodes)
    decreases gr.nodes - Seen(gr.nodes)
  {
    hide *;
    ghost var before := Seen(gr.nodes);
    filters', found := filters, [];
    SeenIs(gr.nodes);
    ComponentNode(gr, connected, f);
    if f.seen {
      SearchStays(gr, connected, before);
      return;
    }
    SearchStarts(gr, connected, before, f);
    f.seen := true;
    SeenIs(gr.nodes);
    assert Seen(gr.nodes) == before + {f};
    filters', found := filters + [f], [f];
    AllInputPins(f);
    AllPins(f);
    ghost var ins, outs := Prevs(f), Nexts(f);
    var i := 0;
    while i < |f.inputs|
      invariant 0 <= i <= |f.inputs|
      invariant filters' == filters + found && before + {f} <= Seen(gr.nodes)
      invariant Search(gr, connected, before, Seen(gr.nodes), found, PrevsFrom(f, i) + outs)
    {
      PrevPin(f, i);
      var link := f.inputs[i];
      if link != null {
        ghost var middle, more := Seen(gr.nodes), [];
        filters', more := FindFilters(filters', link.prev, gr, connected);
        assert PrevsFrom(f, i) + outs == PrevsFrom(f, i + 1) + outs + {link.prev};
        SearchThen(gr, connected, before, middle, Seen(gr.nodes), found, more, PrevsFrom(f, i + 1) + outs, link.prev);
        found := found + more;
      }
      i := i + 1;
    }
    assert {} + outs == outs;
    i := 0;
    while i < |f.outputs|
      invariant 0 <= i <= |f.outputs|
      invariant filters' == filters + found && before + {f} <= Seen(gr.nodes)
      invariant Search(gr, connected, before, Seen(gr.nodes), found, NextsFrom(f, i))
    {
      NextPin(f, i);
      var link := f.outputs[i];
      if link != null {
        ghost var middle, more := Seen(gr.nodes), [];
        filters', more := FindFilters(filters', link.next, gr, connected);
        SearchThen(gr, connected, before, middle, Seen(gr.nodes), found, more, NextsFrom(f, i + 1), link.next);
        found := found + more;
      }
      i := i + 1;
    }
  }

  // ----- Components as sets -----

  lemma ComponentIsLeast(gr: Graph, f: Filter, s: set<Filter>)
    requires ValidGraph(gr) && f in gr.nodes && f in s && Closed(Undirected(gr), s)
    ensures Component(gr, f) <= s
  {
    ReachedIsLeast(Undirected(gr), {f}, s);
  }

  /** Being connected goes both ways. */
  lemma ComponentIsShared(gr: Graph, f: Filter, g: Filter)
    requires ValidGraph(gr) && f in gr.nodes && g in Component(gr, f)
    ensures g in gr.nodes && Component(gr, g) == Component(gr, f)
  {
    var un, rest := Undirected(gr), Component(gr, f) - Component(gr, g);
    ReachedIsLeast(un, {g}, Component(gr, f));
    if f !in Component(gr, g) {
      assert Closed(un, rest) by {
        forall h, k | h in rest && k in un.succ[h]
          ensures k in rest
        {
          assert h in un.succ[k];
        }
      }
      ReachedIsLeast(un, {f}, rest);
      assert false;
    }
    ReachedIsLeast(un, {f}, Component(gr, g));
  }

  /** The second graph has one link more, or the same links. */
  ghost predicate OneLinkMore(gr: Graph, more: Graph, f1: Filter, f2: Filter) {
    && f1 in gr.nodes && f2 in gr.nodes && f1 in gr.succ && f2 in gr.pred
    && more == Graph(gr.nodes, gr.succ[f1 := gr.succ[f1] + {f2}], gr.pred[f2 := gr.pred[f2] + {f1}])
  }

  lemma ComponentGrows(gr: Graph, more: Graph, f1: Filter, f2: Filter, g: Filter)
    requires ValidGraph(gr) && ValidGraph(more) && OneLinkMore(gr, more, f1, f2) && g in gr.nodes
    ensures Component(gr, g) <= Component(more, g)
  {
    hide Reached;
    var s := Component(more, g);
    assert Closed(Undirected(gr), s) by {
      forall h, k | h in s && k in Undirected(gr).succ[h]
        ensures k in s
      {
        assert k in Undirected(more).succ[h];
      }
    }
    ReachedIsLeast(Undirected(gr), {g}, s);
  }

  lemma ComponentAway(gr: Graph, more: Graph, f1: Filter, f2: Filter, g: Filter)
    requires ValidGraph(gr) && ValidGraph(more) && OneLinkMore(gr, more, f1, f2) && g in gr.nodes
    requires f1 !in Component(gr, g) && f2 !in Component(gr, g)
    ensures Component(more, g) == Component(gr, g)
  {
    hide Reached;
    var s := Component(gr, g);
    ComponentGrows(gr, more, f1, f2, g);
    assert Closed(Undirected(more), s) by {
      forall h, k | h in s && k in Undirected(more).succ[h]
        ensures k in s
      {
        assert k in Undirected(gr).succ[h];
      }
    }
    ReachedIsLeast(Undirected(more), {g}, s);
  }
}
