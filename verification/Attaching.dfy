/** Linking filters, and attaching connected filters to a ticker (msticker.c, msfilter.c). */
module Attaching {
  import opened FilterGraph
  import opened Schedules
  import opened Tickers
  import opened Components
  import opened Assignments

  lemma ConsistentHas(gr: Graph, tickers: set<Ticker>, f: Filter)
    requires Consistent(gr, tickers) && f in gr.nodes
    ensures Wired(gr) && ValidGraph(gr) && Seen(gr.nodes) == {}
    ensures Assigned(gr, tickers, TickersOf(gr.nodes)) && TickersAgree(gr, TickersOf(gr.nodes))
    ensures TickersOf(gr.nodes).Keys == gr.nodes && forall g :: g in gr.nodes ==> TickersOf(gr.nodes)[g] == g.ticker
    ensures forall t :: t in tickers ==> Listed(TickersOf(gr.nodes), t, t.executionList)
  {
  }

  /** The search, and the sources it finds. */
  method FindSources(f: Filter, ghost gr: Graph) returns (filters: seq<Filter>, sources: seq<Filter>)
    requires Wired(gr) && ValidGraph(gr) && f in gr.nodes && Seen(gr.nodes) == {}
    modifies gr.nodes`seen
    ensures NoDuplicates(filters) && Elements(filters) == Component(gr, f) == Seen(gr.nodes)
    ensures NoDuplicates(sources) && Elements(sources) == SourcesIn(Component(gr, f))
  {
    hide *;
    ghost var found;
    filters, found := FindFilters([], f, gr, Component(gr, f));
    assert filters == found;
    SearchIsComponent(gr, f, Seen(gr.nodes), found);
    sources := GetSources(filters);
    SourcesOfElements(filters);
  }

  method Preprocess(f: Filter, t: Ticker)
    modifies f`seen, f`lastTick, f`ticker
    ensures !f.seen && f.lastTick == 0 && f.ticker == t
  {
    f.seen := false;
    f.lastTick := 0;
    f.ticker := t;
  }

  method Postprocess(f: Filter)
    modifies f`seen, f`ticker
    ensures !f.seen && f.ticker == null
  {
    f.seen := false;
    f.ticker := null;
  }

  method PreprocessAll(filters: seq<Filter>, t: Ticker)
    modifies Elements(filters)`seen, Elements(filters)`lastTick, Elements(filters)`ticker
    ensures forall f :: f in Elements(filters) ==> !f.seen && f.lastTick == 0 && f.ticker == t
  {
    for i := 0 to |filters|
      invariant forall j :: 0 <= j < i ==> !filters[j].seen && filters[j].lastTick == 0 && filters[j].ticker == t
    {
      assert filters[i] in Elements(filters);
      Preprocess(filters[i], t);
    }
  }

  method PostprocessAll(filters: seq<Filter>)
    modifies Elements(filters)`seen, Elements(filters)`ticker
    ensures forall f :: f in Elements(filters) ==> !f.seen && f.ticker == null
  {
    for i := 0 to |filters|
      invariant forall j :: 0 <= j < i ==> !filters[j].seen && filters[j].ticker == null
    {
      assert filters[i] in Elements(filters);
      Postprocess(filters[i]);
    }
  }

  /** Letting a set of marked filters go, in terms of the settings of all filters. */
  method ReleaseAll(filters: seq<Filter>, ghost gr: Graph, ghost at: Assignment)
    requires Wired(gr) && Elements(filters) <= gr.nodes == at.Keys
    requires forall g :: g in gr.nodes ==> g.ticker == at[g] && (g.seen ==> g in Elements(filters))
    modifies Elements(filters)`seen, Elements(filters)`ticker
    ensures Wired(gr)
    ensures forall g :: g in gr.nodes ==> !g.seen && g.ticker == if g in Elements(filters) then null else at[g]
  {
    hide Elements, Wired;
    PostprocessAll(filters);
  }

  lemma MovedTickers(gr: Graph, at: Assignment, f: Filter, t: Ticker?)
    requires ValidGraph(gr) && at.Keys == gr.nodes && f in gr.nodes
    requires forall g :: g in gr.nodes ==> g.ticker == if g in Component(gr, f) then t else at[g]
    ensures TickersOf(gr.nodes) == Moved(gr, at, f, t)
  {
  }

  lemma NoneSeen(nodes: set<Filter>)
    ensures Seen(nodes) == {} <==> forall f :: f in nodes ==> !f.seen
  {
    assert forall f :: f in nodes && f.seen ==> f in Seen(nodes);
  }

  lemma NoneSeenOutside(nodes: set<Filter>, seen: set<Filter>)
    requires Seen(nodes) == seen
    ensures forall f :: f in nodes && f !in seen ==> !f.seen
  {
  }

  lemma ElementsEmpty(list: seq<Filter>)
    ensures Elements(list) == {} <==> list == []
  {
    if list != [] { assert list[0] in Elements(list); }
  }

  lemma ComponentWithin(gr: Graph, f: Filter)
    requires ValidGraph(gr) && f in gr.nodes
    ensures Component(gr, f) <= gr.nodes
  {
  }

  /** The state after a move is consistent when its lists are. */
  lemma ConsistentAfterMove(gr: Graph, tickers: set<Ticker>, at: Assignment, f: Filter, t: Ticker?)
    requires Wired(gr) && ValidGraph(gr) && f in gr.nodes && at.Keys == gr.nodes && Assigned(gr, tickers, at)
    requires t != null ==> t in tickers && SourcesIn(Component(gr, f)) != {}
    requires forall g :: g in gr.nodes ==> !g.seen && g.ticker == if g in Component(gr, f) then t else at[g]
    requires forall other :: other in tickers ==> Listed(Moved(gr, at, f, t), other, other.executionList)
    ensures Consistent(gr, tickers) && TickersOf(gr.nodes) == Moved(gr, at, f, t)
  {
    hide *;
    NoneSeen(gr.nodes);
    MovedTickers(gr, at, f, t);
    MovedIsAssigned(gr, tickers, at, f, t);
    ConsistentFrom(gr, tickers);
  }

  lemma ConsistentFrom(gr: Graph, tickers: set<Ticker>)
    requires Wired(gr) && ValidGraph(gr) && Seen(gr.nodes) == {} && Assigned(gr, tickers, TickersOf(gr.nodes))
    requires forall t :: t in tickers ==> Listed(TickersOf(gr.nodes), t, t.executionList)
    ensures Consistent(gr, tickers)
  {
  }

  /** Everything connected to the filter is attached; without a source among it the program aborts, shown as -1. */
  method Attach(t: Ticker, f: Filter, ghost gr: Graph, ghost tickers: set<Ticker>)
    returns (r: int, ghost added: seq<Filter>)
    requires Consistent(gr, tickers) && f in gr.nodes && t in tickers
    modifies gr.nodes`seen, gr.nodes`lastTick, gr.nodes`ticker, t`executionList
    ensures r == if old(f.ticker) == null && SourcesIn(Component(gr, f)) == {} then -1 else 0
    ensures r == 0 ==> Consistent(gr, tickers)
    ensures r == 0 ==> TickersOf(gr.nodes) ==
                       if old(f.ticker) == null then Moved(gr, old(TickersOf(gr.nodes)), f, t)
                         else old(TickersOf(gr.nodes))
    ensures r == 0 ==>
      t.executionList == old(t.executionList) + added && Elements(old(t.executionList)) !! Elements(added)
    ensures r == 0 ==> Elements(added) == if old(f.ticker) == null then SourcesIn(Component(gr, f)) else {}
    ensures forall g :: g in gr.nodes ==>
              (g.ticker == old(g.ticker) && g.lastTick == old(g.lastTick)) || (g.ticker == t && g.lastTick == 0)
  {
    hide *;
    added := [];
    if f.ticker != null {
      ElementsEmpty([]);
      assert t.executionList == t.executionList + [];
      return 0, [];
    }
    ghost var at, list := TickersOf(gr.nodes), t.executionList;
    ConsistentHas(gr, tickers, f);
    ComponentWithin(gr, f);
    var filters, sources := FindSources(f, gr);
    ElementsEmpty(sources);
    if sources == [] {
      return -1, [];
    }
    NoneSeenOutside(gr.nodes, Component(gr, f));
    PreprocessAll(filters, t);
    t.executionList := t.executionList + sources;
    added := sources;
    r := 0;
    MovedIn(gr, at, f, t, list, sources);
    forall other | other in tickers
      ensures Listed(Moved(gr, at, f, t), other, other.executionList)
    {
      if other != t {
        MovedElsewhere(gr, at, f, t, other, other.executionList);
      }
    }
    ConsistentAfterMove(gr, tickers, at, f, t);
  }

  /** A ticker that still lists the sources of filters that were let go. */
  lemma StaleList(gr: Graph, at: Assignment, f: Filter, other: Ticker, list: seq<Filter>)
    requires ValidGraph(gr) && at.Keys == gr.nodes && TickersAgree(gr, at) && f in gr.nodes && at[f] == other
    requires Listed(at, other, list) && SourcesIn(Component(gr, f)) != {}
    ensures !Listed(Moved(gr, at, f, null), other, list)
  {
    ComponentTicker(gr, at, f);
    var source :| source in SourcesIn(Component(gr, f));
    assert source in SourcesAt(at, other) && source !in SourcesAt(Moved(gr, at, f, null), other);
  }

  lemma AttachedHasSource(gr: Graph, tickers: set<Ticker>, at: Assignment, f: Filter)
    requires ValidGraph(gr) && Assigned(gr, tickers, at) && f in gr.nodes && at[f] != null
    ensures SourcesIn(Component(gr, f)) != {} && at[f] in tickers
  {
  }

  /**
   * Everything connected to the filter is let go; there is always a source, so detaching never aborts.
   * The state stays consistent exactly when the filter was not attached to another ticker.
   */
  method Detach(t: Ticker, f: Filter, ghost gr: Graph, ghost tickers: set<Ticker>) returns (r: int)
    requires Consistent(gr, tickers) && f in gr.nodes && t in tickers
    modifies gr.nodes`seen, gr.nodes`ticker, t`executionList
    ensures r == 0
    ensures TickersOf(gr.nodes) == Moved(gr, old(TickersOf(gr.nodes)), f, null)
    ensures t.executionList == Without(old(t.executionList), SourcesIn(Component(gr, f)))
    ensures Consistent(gr, tickers) <==> old(f.ticker) == null || old(f.ticker) == t
    ensures forall g :: g in gr.nodes ==> g.ticker == old(g.ticker) || g.ticker == null
  {
    hide *;
    r := 0;
    ghost var at, list := TickersOf(gr.nodes), t.executionList;
    ConsistentHas(gr, tickers, f);
    ComponentWithin(gr, f);
    if f.ticker == null {
      AbsentElsewhere(gr, at, f, t, list);
      ComponentTicker(gr, at, f);
      MovedTickers(gr, at, f, null);
      return;
    }
    AttachedHasSource(gr, tickers, at, f);
    var filters, sources := FindSources(f, gr);
    ElementsEmpty(sources);
    if sources == [] {
      return -1;
    }
    NoneSeenOutside(gr.nodes, Component(gr, f));
    assert Wired(gr);
    t.executionList := RemoveFrom(t.executionList, sources);
    ReleaseAll(filters, gr, at);
    MovedTickers(gr, at, f, null);
    if at[f] == t {
      ReleasedOwn(gr, tickers, at, f, t, list, sources);
    } else {
      ReleasedOther(gr, tickers, at, f, t, list, sources);
    }
  }

  /** The list of a filter's own ticker has lost the right sources. */
  lemma ReleasedOwn(gr: Graph, tickers: set<Ticker>, at: Assignment, f: Filter, t: Ticker, list: seq<Filter>,
      sources: seq<Filter>)
    requires Wired(gr) && ValidGraph(gr) && f in gr.nodes && at.Keys == gr.nodes && Assigned(gr, tickers, at)
    requires TickersAgree(gr, at) && at[f] == t && Listed(at, t, list)
             && Elements(sources) == SourcesIn(Component(gr, f))
    requires forall g :: g in gr.nodes ==> !g.seen && g.ticker == if g in Component(gr, f) then null else at[g]
    requires t.executionList == RemoveEach(list, sources)
    requires forall other :: other in tickers && other != t ==> Listed(at, other, other.executionList)
    ensures t.executionList == Without(list, SourcesIn(Component(gr, f))) && Consistent(gr, tickers)
  {
    hide *;
    MovedOut(gr, at, f, t, list, sources);
    forall other | other in tickers
      ensures Listed(Moved(gr, at, f, null), other, other.executionList)
    {
      if other != t {
        MovedElsewhere(gr, at, f, null, other, other.executionList);
      }
    }
    ConsistentAfterMove(gr, tickers, at, f, null);
  }

  /** The list of another ticker has lost nothing, so the filter's own ticker still lists what was let go. */
  lemma ReleasedOther(gr: Graph, tickers: set<Ticker>, at: Assignment, f: Filter, t: Ticker, list: seq<Filter>,
      sources: seq<Filter>)
    requires ValidGraph(gr) && f in gr.nodes && at.Keys == gr.nodes && TickersAgree(gr, at) && at[f] != null
             && at[f] != t
    requires at[f] in tickers && Listed(at, t, list) && Elements(sources) == SourcesIn(Component(gr, f)) != {}
    requires TickersOf(gr.nodes) == Moved(gr, at, f, null) && t.executionList == RemoveEach(list, sources)
    requires Listed(at, at[f], at[f].executionList)
    ensures t.executionList == Without(list, SourcesIn(Component(gr, f))) && !Consistent(gr, tickers)
  {
    hide *;
    AbsentElsewhere(gr, at, f, t, list);
    ListedNoDuplicates(at, t, list);
    RemoveEachIsWithout(list, sources);
    StaleList(gr, at, f, at[f], at[f].executionList);
    if Consistent(gr, tickers) {
      ConsistentHas(gr, tickers, f);
      assert false;
    }
  }

  lemma ListedNoDuplicates(at: Assignment, t: Ticker, list: seq<Filter>)
    requires Listed(at, t, list)
    ensures NoDuplicates(list)
  {
  }

  method RemoveFrom(list: seq<Filter>, sources: seq<Filter>) returns (rest: seq<Filter>)
    ensures rest == RemoveEach(list, sources)
  {
    rest := list;
    for i := 0 to |sources|
      invariant RemoveEach(rest, sources[i..]) == RemoveEach(list, sources)
    {
      rest := RemoveFirst(rest, sources[i]);
      assert sources[i..][1..] == sources[i + 1..];
    }
  }

  /** Detaching undoes attaching. */
  method AttachThenDetach(t: Ticker, f: Filter, ghost gr: Graph, ghost tickers: set<Ticker>) returns (r: int)
    requires Consistent(gr, tickers) && f in gr.nodes && t in tickers && f.ticker == null
    modifies gr.nodes`seen, gr.nodes`lastTick, gr.nodes`ticker, t`executionList
    ensures r == 0 <==> SourcesIn(Component(gr, f)) != {}
    ensures r == 0 ==> Consistent(gr, tickers)
    ensures r == 0 ==> TickersOf(gr.nodes) == old(TickersOf(gr.nodes)) && t.executionList == old(t.executionList)
  {
    hide *;
    ghost var at, list, added := TickersOf(gr.nodes), t.executionList, [];
    ConsistentHas(gr, tickers, f);
    r, added := Attach(t, f, gr, tickers);
    if r == 0 {
      ConsistentHas(gr, tickers, f);
      MovedBack(gr, at, f, t);
      WithoutUndoesAppend(list, added);
      r := Detach(t, f, gr, tickers);
    }
  }

  lemma MovedBack(gr: Graph, at: Assignment, f: Filter, t: Ticker)
    requires ValidGraph(gr) && at.Keys == gr.nodes && TickersAgree(gr, at) && f in gr.nodes && at[f] == null
    ensures Moved(gr, at, f, t)[f] == t && Moved(gr, Moved(gr, at, f, t), f, null) == at
  {
    hide Component;
    ComponentTicker(gr, at, f);
  }

}
