/** Which filters are attached to which ticker, as values (msticker.c). */
module Assignments {
  import opened FilterGraph
  import opened Schedules
  import opened Descents
  import opened Tickers
  import opened Components

  // ----- Lists -----

  function SourcesOf(filters: seq<Filter>): seq<Filter> {
    if filters == [] then []
    else
      var n := |filters| - 1;
      SourcesOf(filters[..n]) + if filters[n].ninputs == 0 then [filters[n]] else []
  }

  ghost function SourcesIn(s: set<Filter>): set<Filter> {
    set f | f in s && f.ninputs == 0
  }

  lemma {:induction false} SourcesOfElements(filters: seq<Filter>)
    requires NoDuplicates(filters)
    ensures Elements(SourcesOf(filters)) == SourcesIn(Elements(filters)) && NoDuplicates(SourcesOf(filters))
  {
    if filters != [] {
      var n := |filters| - 1;
      var init, last := filters[..n], [filters[n]];
      SourcesOfElements(init);
      assert filters == init + last;
      ConcatenatedElements(init, last);
      PrefixLacksNext(filters, n);
      if filters[n].ninputs == 0 {
        ConcatenatedElements(SourcesOf(init), last);
        ConcatenatedNoDuplicates(SourcesOf(init), last);
      } else {
        assert SourcesOf(init) + [] == SourcesOf(init);
      }
    }
  }

  method GetSources(filters: seq<Filter>) returns (sources: seq<Filter>)
    ensures sources == SourcesOf(filters)
  {
    sources := [];
    for i := 0 to |filters|
      invariant sources == SourcesOf(filters[..i])
    {
      assert filters[..i + 1][..i] == filters[..i];
      if filters[i].ninputs == 0 {
        sources := sources + [filters[i]];
      }
    }
    assert filters[..|filters|] == filters;
  }

  /** A list without its first occurrence of a filter, if it has one. */
  function RemoveFirst(list: seq<Filter>, f: Filter): seq<Filter> {
    if list == [] then [] else if list[0] == f then list[1..] else [list[0]] + RemoveFirst(list[1..], f)
  }

  function RemoveEach(list: seq<Filter>, fs: seq<Filter>): seq<Filter>
    decreases |fs|
  {
    if fs == [] then list else RemoveEach(RemoveFirst(list, fs[0]), fs[1..])
  }

  lemma {:induction false} RemoveFirstElements(list: seq<Filter>, f: Filter)
    requires NoDuplicates(list)
    ensures NoDuplicates(RemoveFirst(list, f)) && Elements(RemoveFirst(list, f)) == Elements(list) - {f}
  {
    if list != [] {
      var head, rest := [list[0]], list[1..];
      assert list == head + rest;
      ConcatenatedElements(head, rest);
      assert list[0] !in rest;
      if list[0] != f {
        RemoveFirstElements(rest, f);
        ConcatenatedElements(head, RemoveFirst(rest, f));
        ConcatenatedNoDuplicates(head, RemoveFirst(rest, f));
      }
    }
  }

  lemma {:induction false} RemoveEachElements(list: seq<Filter>, fs: seq<Filter>)
    requires NoDuplicates(list)
    ensures NoDuplicates(RemoveEach(list, fs)) && Elements(RemoveEach(list, fs)) == Elements(list) - Elements(fs)
    decreases |fs|
  {
    if fs != [] {
      RemoveFirstElements(list, fs[0]);
      RemoveEachElements(RemoveFirst(list, fs[0]), fs[1..]);
      assert fs == [fs[0]] + fs[1..];
      ConcatenatedElements([fs[0]], fs[1..]);
    }
  }

  /** A list without the filters of a set, in the same order. */
  ghost function Without(list: seq<Filter>, s: set<Filter>): seq<Filter> {
    if list == [] then [] else (if list[0] in s then [] else [list[0]]) + Without(list[1..], s)
  }

  lemma {:induction false} WithoutAbsent(list: seq<Filter>, s: set<Filter>)
    requires forall i :: 0 <= i < |list| ==> list[i] !in s
    ensures Without(list, s) == list
  {
    if list != [] {
      WithoutAbsent(list[1..], s);
      assert [list[0]] + list[1..] == list;
    }
  }

  lemma {:induction false} WithoutPresent(list: seq<Filter>, s: set<Filter>)
    requires forall i :: 0 <= i < |list| ==> list[i] in s
    ensures Without(list, s) == []
  {
    if list != [] {
      WithoutPresent(list[1..], s);
    }
  }

  lemma {:induction false} WithoutConcatenated(list: seq<Filter>, more: seq<Filter>, s: set<Filter>)
    ensures Without(list + more, s) == Without(list, s) + Without(more, s)
  {
    if list == [] {
      assert list + more == more;
    } else {
      var head := if list[0] in s then [] else [list[0]];
      var left, right := Without(list[1..], s), Without(more, s);
      WithoutConcatenated(list[1..], more, s);
      assert (list + more)[1..] == list[1..] + more && (list + more)[0] == list[0];
      assert head + (left + right) == (head + left) + right;
    }
  }

  lemma {:induction false} WithoutTwice(list: seq<Filter>, a: set<Filter>, b: set<Filter>)
    ensures Without(Without(list, a), b) == Without(list, a + b)
  {
    if list != [] {
      var head := if list[0] in a then [] else [list[0]];
      WithoutTwice(list[1..], a, b);
      WithoutConcatenated(head, Without(list[1..], a), b);
    }
  }

  lemma {:induction false} RemoveFirstIsWithout(list: seq<Filter>, f: Filter)
    requires NoDuplicates(list)
    ensures RemoveFirst(list, f) == Without(list, {f})
  {
    if list != [] {
      if list[0] == f {
        WithoutAbsent(list[1..], {f});
      } else {
        RemoveFirstIsWithout(list[1..], f);
      }
    }
  }

  /** In a list without duplicates, removing one by one leaves exactly the others, in order. */
  lemma {:induction false} RemoveEachIsWithout(list: seq<Filter>, fs: seq<Filter>)
    requires NoDuplicates(list)
    ensures RemoveEach(list, fs) == Without(list, Elements(fs))
    decreases |fs|
  {
    if fs == [] {
      assert Elements(fs) == {};
      WithoutAbsent(list, {});
    } else {
      RemoveFirstElements(list, fs[0]);
      RemoveFirstIsWithout(list, fs[0]);
      RemoveEachIsWithout(RemoveFirst(list, fs[0]), fs[1..]);
      WithoutTwice(list, {fs[0]}, Elements(fs[1..]));
      assert Elements(fs) == {fs[0]} + Elements(fs[1..]) by {
        assert fs == [fs[0]] + fs[1..];
        ConcatenatedElements([fs[0]], fs[1..]);
      }
    }
  }

  /** Taking out what was appended gives the list back. */
  lemma WithoutUndoesAppend(list: seq<Filter>, more: seq<Filter>)
    requires Elements(list) !! Elements(more)
    ensures Without(list + more, Elements(more)) == list
  {
    WithoutConcatenated(list, more, Elements(more));
    assert forall i :: 0 <= i < |list| ==> list[i] in Elements(list);
    WithoutAbsent(list, Elements(more));
    WithoutPresent(more, Elements(more));
  }

  // ----- What holds between operations -----

  /** Which ticker each filter is attached to. */
  type Assignment = map<Filter, Ticker?>

  ghost function TickersOf(nodes: set<Filter>): (at: Assignment)
    reads nodes`ticker
    ensures at.Keys == nodes
  {
    map f | f in nodes :: f.ticker
  }

  /** The assignment after everything connected to a filter has moved to a ticker, or to none. */
  ghost function Moved(gr: Graph, at: Assignment, f: Filter, t: Ticker?): (moved: Assignment)
    requires ValidGraph(gr) && at.Keys == gr.nodes && f in gr.nodes
    ensures moved.Keys == gr.nodes
  {
    map g | g in gr.nodes :: if g in Component(gr, f) then t else at[g]
  }

  /** Linked filters have the same ticker. */
  ghost predicate TickersAgree(gr: Graph, at: Assignment)
    requires ValidGraph(gr) && at.Keys == gr.nodes
  {
    forall f, g :: f in gr.nodes && g in gr.succ[f] ==> g in gr.nodes && at[f] == at[g]
  }

  /** Every attached filter is connected to a source. */
  ghost predicate Driven(gr: Graph, at: Assignment)
    requires ValidGraph(gr) && at.Keys == gr.nodes
  {
    forall f :: f in gr.nodes && at[f] != null ==> SourcesIn(Component(gr, f)) != {}
  }

  ghost predicate Assigned(gr: Graph, tickers: set<Ticker>, at: Assignment)
    requires ValidGraph(gr)
  {
    && at.Keys == gr.nodes && (forall f :: f in gr.nodes && at[f] != null ==> at[f] in tickers)
    && TickersAgree(gr, at) && Driven(gr, at)
  }

  ghost function SourcesAt(at: Assignment, t: Ticker): set<Filter> {
    set f | f in at && at[f] == t && f.ninputs == 0
  }

  /** An execution list is exactly the sources of the attached filters, without duplicates. */
  ghost predicate Listed(at: Assignment, t: Ticker, list: seq<Filter>) {
    NoDuplicates(list) && Elements(list) == SourcesAt(at, t)
  }

  ghost predicate Consistent(gr: Graph, tickers: set<Ticker>)
    reads gr.nodes`inputs, gr.nodes`outputs, gr.nodes`seen, gr.nodes`ticker, tickers`executionList
  {
    && Wired(gr) && ValidGraph(gr) && Seen(gr.nodes) == {}
    && Assigned(gr, tickers, TickersOf(gr.nodes))
    && forall t :: t in tickers ==> Listed(TickersOf(gr.nodes), t, t.executionList)
  }

  /** Everything connected to a filter has its ticker. */
  lemma ComponentTicker(gr: Graph, at: Assignment, f: Filter)
    requires ValidGraph(gr) && at.Keys == gr.nodes && TickersAgree(gr, at) && f in gr.nodes
    ensures forall g :: g in Component(gr, f) ==> g in gr.nodes && at[g] == at[f]
  {
    hide Component, Reached;
    var s := set g | g in gr.nodes && at[g] == at[f];
    assert Closed(Undirected(gr), s) by {
      forall g, h | g in s && h in Undirected(gr).succ[g]
        ensures h in s
      {
        if h !in gr.succ[g] { assert g in gr.succ[h]; }
      }
    }
    ComponentIsLeast(gr, f, s);
  }

  lemma LinkedBothWays(gr: Graph, g: Filter, h: Filter)
    requires ValidGraph(gr) && g in gr.nodes && h in gr.succ[g]
    ensures h in gr.nodes && g in Undirected(gr).succ && h in Undirected(gr).succ
    ensures h in Undirected(gr).succ[g] && g in Undirected(gr).succ[h]
  {
  }

  lemma MovedTogether(gr: Graph, at: Assignment, f: Filter, t: Ticker?, g: Filter, h: Filter)
    requires ValidGraph(gr) && at.Keys == gr.nodes && TickersAgree(gr, at) && f in gr.nodes && g in gr.nodes
             && h in gr.succ[g]
    ensures h in gr.nodes && Moved(gr, at, f, t)[g] == Moved(gr, at, f, t)[h]
  {
    hide Component, Undirected;
    LinkedBothWays(gr, g, h);
  }

  lemma MovedAgrees(gr: Graph, at: Assignment, f: Filter, t: Ticker?)
    requires ValidGraph(gr) && at.Keys == gr.nodes && TickersAgree(gr, at) && f in gr.nodes
    ensures TickersAgree(gr, Moved(gr, at, f, t))
  {
    hide Moved, Component;
    forall g, h | g in gr.nodes && h in gr.succ[g]
      ensures h in gr.nodes && Moved(gr, at, f, t)[g] == Moved(gr, at, f, t)[h]
    {
      MovedTogether(gr, at, f, t, g, h);
    }
  }

  /** Moving a whole component keeps an assignment good, if the component has a source or is let go. */
  lemma MovedIsAssigned(gr: Graph, tickers: set<Ticker>, at: Assignment, f: Filter, t: Ticker?)
    requires ValidGraph(gr) && Assigned(gr, tickers, at) && f in gr.nodes
    requires t != null ==> t in tickers && SourcesIn(Component(gr, f)) != {}
    ensures Assigned(gr, tickers, Moved(gr, at, f, t))
  {
    hide Component, Undirected, SourcesIn, TickersAgree;
    var moved := Moved(gr, at, f, t);
    MovedAgrees(gr, at, f, t);
    forall g | g in gr.nodes && moved[g] != null
      ensures SourcesIn(Component(gr, g)) != {}
    {
      if g in Component(gr, f) {
        ComponentIsShared(gr, f, g);
      }
    }
  }

  /** A ticker that the component neither leaves nor joins keeps its list. */
  lemma MovedElsewhere(gr: Graph, at: Assignment, f: Filter, t: Ticker?, other: Ticker, list: seq<Filter>)
    requires ValidGraph(gr) && at.Keys == gr.nodes && TickersAgree(gr, at) && f in gr.nodes
    requires Listed(at, other, list) && other != t && at[f] != other
    ensures Listed(Moved(gr, at, f, t), other, list)
  {
    hide Component, NoDuplicates;
    ComponentTicker(gr, at, f);
    assert SourcesAt(Moved(gr, at, f, t), other) == SourcesAt(at, other);
  }

  lemma MovedIn(gr: Graph, at: Assignment, f: Filter, t: Ticker, list: seq<Filter>, sources: seq<Filter>)
    requires ValidGraph(gr) && at.Keys == gr.nodes && TickersAgree(gr, at) && f in gr.nodes && at[f] == null
    requires Listed(at, t, list) && NoDuplicates(sources) && Elements(sources) == SourcesIn(Component(gr, f))
    ensures Listed(Moved(gr, at, f, t), t, list + sources) && Elements(list) !! Elements(sources)
  {
    hide Component;
    ComponentTicker(gr, at, f);
    ConcatenatedElements(list, sources);
    ConcatenatedNoDuplicates(list, sources);
    assert SourcesAt(Moved(gr, at, f, t), t) == SourcesAt(at, t) + SourcesIn(Component(gr, f));
  }

  lemma MovedOut(gr: Graph, at: Assignment, f: Filter, t: Ticker, list: seq<Filter>, sources: seq<Filter>)
    requires ValidGraph(gr) && at.Keys == gr.nodes && TickersAgree(gr, at) && f in gr.nodes && at[f] == t
    requires Listed(at, t, list) && Elements(sources) == SourcesIn(Component(gr, f))
    ensures Listed(Moved(gr, at, f, null), t, RemoveEach(list, sources))
    ensures RemoveEach(list, sources) == Without(list, SourcesIn(Component(gr, f)))
  {
    hide Component, NoDuplicates, RemoveEach, Without;
    RemoveEachElements(list, sources);
    RemoveEachIsWithout(list, sources);
    assert SourcesAt(Moved(gr, at, f, null), t) == SourcesAt(at, t) - SourcesIn(Component(gr, f));
  }

  /** A list holds no source of a component that is attached elsewhere or nowhere. */
  lemma AbsentElsewhere(gr: Graph, at: Assignment, f: Filter, t: Ticker, list: seq<Filter>)
    requires ValidGraph(gr) && at.Keys == gr.nodes && TickersAgree(gr, at) && f in gr.nodes && at[f] != t
    requires Listed(at, t, list)
    ensures Without(list, SourcesIn(Component(gr, f))) == list
  {
    hide Component;
    ComponentTicker(gr, at, f);
    assert forall i :: 0 <= i < |list| ==> list[i] in Elements(list);
    WithoutAbsent(list, SourcesIn(Component(gr, f)));
  }
}
