/** Any history of operations on filters and tickers keeps them consistent (msticker.c, msfilter.c). */
module Histories {
  import opened FilterGraph
  import opened Schedules
  import opened Tickers
  import opened Components
  import opened Assignments
  import opened Attaching
  import opened Linking

  datatype Operation =
    | LinkPins(f1: Filter, pin1: nat, f2: Filter, pin2: nat)
    | UnlinkPins(f1: Filter, pin1: nat, f2: Filter, pin2: nat)
    | AttachTo(t: Ticker, f: Filter)
    | DetachFrom(t: Ticker, f: Filter)
    | TickOnce(t: Ticker)

  ghost predicate Concerns(op: Operation, nodes: set<Filter>, tickers: set<Ticker>) {
    match op
    case LinkPins(f1, _, f2, _) => f1 in nodes && f2 in nodes
    case UnlinkPins(f1, _, f2, _) => f1 in nodes && f2 in nodes
    case AttachTo(t, f) => t in tickers && f in nodes
    case DetachFrom(t, f) => t in tickers && f in nodes
    case TickOnce(t) => t in tickers
  }

  /** Filters are linked between filters of one ticker, unlinked while detached, and detached from their own ticker. */
  predicate Allowed(op: Operation)
    reads if op.LinkPins? then {op.f1, op.f2} else if op.UnlinkPins? then {op.f1} else if op.DetachFrom? then {op.f}
      else {}
  {
    match op
    case LinkPins(f1, _, f2, _) => f1.ticker == f2.ticker
    case UnlinkPins(f1, _, _, _) => f1.ticker == null
    case AttachTo(_, _) => true
    case DetachFrom(t, f) => f.ticker == null || f.ticker == t
    case TickOnce(_) => true
  }

  /** Linked and attached consistently, and no attached filter is stamped ahead of its ticker. */
  ghost predicate Good(nodes: set<Filter>, tickers: set<Ticker>)
    reads nodes, tickers
  {
    WellLinked(nodes) && Consistent(GraphOf(nodes), tickers) && Stamped(nodes, tickers)
  }

  ghost predicate Stamped(nodes: set<Filter>, tickers: set<Ticker>)
    reads nodes`ticker, nodes`lastTick, tickers`ticks
  {
    forall f :: f in nodes && f.ticker != null ==> f.ticker in tickers && f.lastTick <= f.ticker.ticks
  }

  /** Filters and tickers that were just made are. */
  lemma FreshIsGood(nodes: set<Filter>, tickers: set<Ticker>)
    requires forall f :: f in nodes ==> f.inputs == seq(f.ninputs, _ => null) && f.outputs == seq(f.noutputs, _ => null)
    requires forall f :: f in nodes ==> !f.seen && f.ticker == null
    requires forall t :: t in tickers ==> t.executionList == []
    ensures Good(nodes, tickers)
  {
    var gr := GraphOf(nodes);
    assert forall f :: f in nodes ==> LinkedTo(f, nodes);
    WellLinkedGraph(nodes);
    NoneSeen(nodes);
    assert forall t: Ticker :: SourcesAt(TickersOf(nodes), t) == {};
  }

  // ----- A ticker's own filters -----

  ghost function Own(nodes: set<Filter>, t: Ticker): set<Filter>
    reads nodes`ticker
  {
    set f | f in nodes && f.ticker == t
  }

  /** The filters of a ticker are linked among themselves only. */
  lemma OwnGraph(nodes: set<Filter>, tickers: set<Ticker>, t: Ticker)
    requires WellLinked(nodes) && Consistent(GraphOf(nodes), tickers) && t in tickers
    ensures var own := Own(nodes, t);
            Wired(GraphOf(own)) && ValidGraph(GraphOf(own)) && Elements(t.executionList) <= own
              && Queues(own) <= Queues(nodes)
  {
    var gr, own := GraphOf(nodes), Own(nodes, t);
    assert TickersAgree(gr, TickersOf(nodes)) && Listed(TickersOf(nodes), t, t.executionList);
    forall f | f in own
      ensures LinkedTo(f, own)
    {
      assert LinkedTo(f, nodes);
      forall i | 0 <= i < |f.outputs| && f.outputs[i] != null
        ensures f.outputs[i].next in own
      {
        assert f.outputs[i].next in gr.succ[f];
      }
      forall i | 0 <= i < |f.inputs| && f.inputs[i] != null
        ensures f.inputs[i].prev in own
      {
        var q := f.inputs[i];
        assert LinkedTo(q.prev, nodes) && q.prev.outputs[q.prevPin] == q && q.next == f;
        assert f in gr.succ[q.prev];
      }
    }
    WellLinkedGraph(own);
  }

  // ----- What an operation does, as values -----

  /** Links, tickers, execution lists, ticks and the work done. */
  datatype World = World(gr: Graph, ins: Pins, outs: Pins, at: Assignment, lists: map<Ticker, seq<Filter>>,
    ticks: map<Ticker, nat>, works: map<Filter, (nat, bool)>)

  ghost function WorldOf(nodes: set<Filter>, tickers: set<Ticker>): World
    reads nodes`inputs, nodes`outputs, nodes`ticker, nodes`worked, nodes`waited, tickers`executionList, tickers`ticks
  {
    World(GraphOf(nodes), InputsOf(nodes), OutputsOf(nodes), TickersOf(nodes), ListsOf(tickers), TicksOf(tickers),
          Works(nodes))
  }

  ghost function ListsOf(tickers: set<Ticker>): map<Ticker, seq<Filter>>
    reads tickers`executionList
  {
    map t | t in tickers :: t.executionList
  }

  ghost function TicksOf(tickers: set<Ticker>): map<Ticker, nat>
    reads tickers`ticks
  {
    map t | t in tickers :: t.ticks
  }

  ghost predicate Shaped(w: World) {
    && ValidGraph(w.gr) && w.at.Keys == w.gr.nodes && w.works.Keys == w.gr.nodes
    && w.ins.Keys == w.gr.nodes && w.outs.Keys == w.gr.nodes && w.lists.Keys == w.ticks.Keys
  }

  /** A link is made if both pins are there and free. */
  ghost predicate Links(w: World, w': World, f1: Filter, pin1: nat, f2: Filter, pin2: nat)
    requires Shaped(w) && f1 in w.gr.nodes && f2 in w.gr.nodes
  {
    if pin1 < |w.outs[f1]| && pin2 < |w.ins[f2]| && w.outs[f1][pin1] == null && w.ins[f2][pin2] == null then
      && f1 in w'.outs && pin1 < |w'.outs[f1]| && OneLinkMore(w.gr, w'.gr, f1, f2)
      && var q := w'.outs[f1][pin1];
         && q != null
         && w' == w.(gr := w'.gr, outs := w.outs[f1 := w.outs[f1][pin1 := q]], ins := w.ins[f2 := w.ins[f2][pin2 := q]])
    else w' == w
  }

  /** A link is taken away if both pins have the same queue. */
  ghost predicate Unlinks(w: World, w': World, f1: Filter, pin1: nat, f2: Filter, pin2: nat)
    requires Shaped(w) && f1 in w.gr.nodes && f2 in w.gr.nodes
  {
    if pin1 < |w.outs[f1]| && pin2 < |w.ins[f2]| && w.outs[f1][pin1] == w.ins[f2][pin2] != null then
      && OneLinkMore(w'.gr, w.gr, f1, f2)
      && w' == w.(gr := w'.gr, outs := w.outs[f1 := w.outs[f1][pin1 := null]],
        ins := w.ins[f2 := w.ins[f2][pin2 := null]])
    else w' == w
  }

  /** Everything connected to a detached filter moves to the ticker, whose list grows by the sources among it. */
  ghost predicate Attaches(w: World, w': World, t: Ticker, f: Filter)
    requires Shaped(w) && f in w.gr.nodes && t in w.lists
  {
    if w.at[f] != null then w' == w
    else
      && t in w'.lists && w.lists[t] <= w'.lists[t]
      && w' == w.(at := Moved(w.gr, w.at, f, t), lists := w.lists[t := w'.lists[t]])
      && Elements(w'.lists[t][|w.lists[t]|..]) == SourcesIn(Component(w.gr, f))
  }

  ghost predicate Detaches(w: World, w': World, t: Ticker, f: Filter)
    requires Shaped(w) && f in w.gr.nodes && t in w.lists
  {
    w' == w.(at := Moved(w.gr, w.at, f, null),
      lists := w.lists[t := Without(w.lists[t], SourcesIn(Component(w.gr, f)))])
  }

  /** The links among the filters of a ticker. */
  ghost function OwnLinks(w: World, t: Ticker): Graph
    requires Shaped(w)
  {
    var own := set f | f in w.gr.nodes && w.at[f] == t;
    Graph(own, map f | f in own :: w.gr.succ[f], map f | f in own :: w.gr.pred[f])
  }

  /** The filters of a log work, as a schedule over the ticker's own filters has it. */
  ghost predicate Ticks(w: World, w': World, t: Ticker, log: seq<Filter>, k: nat)
    requires Shaped(w) && t in w.lists
  {
    var own := OwnLinks(w, t);
    && ValidGraph(own) && Elements(w.lists[t]) <= own.nodes && Scheduled(own, w.lists[t], log, k)
    && w' == w.(ticks := w.ticks[t := w.ticks[t] + 1], works := w'.works) && Worked(w.works, w'.works, log)
  }

  /** What an operation makes of the world; the log is that of a tick. */
  ghost predicate Does(op: Operation, w: World, w': World, log: seq<Filter>, k: nat) {
    Shaped(w) && Concerns(op, w.gr.nodes, w.lists.Keys) &&
    match op
    case LinkPins(f1, pin1, f2, pin2) => Links(w, w', f1, pin1, f2, pin2)
    case UnlinkPins(f1, pin1, f2, pin2) => Unlinks(w, w', f1, pin1, f2, pin2)
    case AttachTo(t, f) => Attaches(w, w', t, f)
    case DetachFrom(t, f) => Detaches(w, w', t, f)
    case TickOnce(t) => Ticks(w, w', t, log, k)
  }

  lemma WorldHas(nodes: set<Filter>, tickers: set<Ticker>)
    requires WellLinked(nodes)
    ensures var w := WorldOf(nodes, tickers);
      && Shaped(w) && w == World(GraphOf(nodes), InputsOf(nodes), OutputsOf(nodes), TickersOf(nodes), ListsOf(tickers),
                                 TicksOf(tickers), Works(nodes))
      && w.gr.nodes == nodes && w.lists.Keys == tickers
      && (forall f :: f in nodes ==> w.ins[f] == f.inputs && w.outs[f] == f.outputs && w.at[f] == f.ticker)
      && (forall f :: f in nodes ==> |f.inputs| == f.ninputs && |f.outputs| == f.noutputs)
      && (forall t :: t in tickers ==> w.lists[t] == t.executionList && w.ticks[t] == t.ticks)
  {
    WellLinkedGraph(nodes);
    assert forall f :: f in nodes ==> LinkedTo(f, nodes);
  }

  // ----- One operation -----

  method LinkKeeps(f1: Filter, pin1: nat, f2: Filter, pin2: nat, ghost nodes: set<Filter>, ghost tickers: set<Ticker>)
    returns (r: int)
    requires Good(nodes, tickers) && f1 in nodes && f2 in nodes && f1.ticker == f2.ticker
    modifies f1`outputs, f2`inputs
    ensures Good(nodes, tickers) && forall q :: q in Queues(nodes) ==> q in old(Queues(nodes)) || fresh(q)
    ensures r == if pin1 < f1.noutputs && pin2 < f2.ninputs
                    && old(f1.outputs)[pin1] == null && old(f2.inputs)[pin2] == null then 0 else -1
    ensures r == -1 ==> unchanged(f1`outputs, f2`inputs) && GraphOf(nodes) == old(GraphOf(nodes))
    ensures r == 0 ==>
      && pin1 < |old(f1.outputs)| == |f1.outputs| && pin2 < |old(f2.inputs)| && f1.outputs[pin1] != null
      && f1.outputs == old(f1.outputs)[pin1 := f1.outputs[pin1]]
        && f2.inputs == old(f2.inputs)[pin2 := f1.outputs[pin1]]
      && OneLinkMore(old(GraphOf(nodes)), GraphOf(nodes), f1, f2)
  {
    hide WellLinked, Consistent, GraphOf, OneLinkMore;
    r := Link(f1, pin1, f2, pin2, nodes, tickers);
    forall q | q in Queues(nodes)
      ensures q in old(Queues(nodes)) || fresh(q)
    {
      var f, i :| f in nodes && 0 <= i < |f.outputs| && f.outputs[i] == q;
      if f != f1 || r == -1 {
        assert f.outputs == old(f.outputs);
      } else if i != pin1 {
        assert old(f1.outputs)[i] == q;
      }
    }
  }

  method UnlinkKeeps(f1: Filter, pin1: nat, f2: Filter, pin2: nat, ghost nodes: set<Filter>,
      ghost tickers: set<Ticker>)
    returns (r: int)
    requires Good(nodes, tickers) && f1 in nodes && f2 in nodes && f1.ticker == null
    modifies f1`outputs, f2`inputs
    ensures Good(nodes, tickers) && Queues(nodes) <= old(Queues(nodes))
    ensures r == if pin1 < f1.noutputs && pin2 < f2.ninputs
                    && old(f1.outputs)[pin1] == old(f2.inputs)[pin2] != null then 0 else -1
    ensures r == -1 ==> unchanged(f1`outputs, f2`inputs) && GraphOf(nodes) == old(GraphOf(nodes))
    ensures r == 0 ==>
      && pin1 < |old(f1.outputs)| && f1.outputs == old(f1.outputs)[pin1 := null]
      && pin2 < |old(f2.inputs)| && f2.inputs == old(f2.inputs)[pin2 := null]
      && OneLinkMore(GraphOf(nodes), old(GraphOf(nodes)), f1, f2)
  {
    hide WellLinked, Consistent, GraphOf, OneLinkMore;
    r := Unlink(f1, pin1, f2, pin2, nodes, tickers);
    forall q | q in Queues(nodes)
      ensures q in old(Queues(nodes))
    {
      var f, i :| f in nodes && 0 <= i < |f.outputs| && f.outputs[i] == q;
      assert old(f.outputs)[i] == q;
    }
  }

  /** The values that a state consists of. */
  lemma WorldIs(nodes: set<Filter>, tickers: set<Ticker>)
    ensures WorldOf(nodes, tickers) == World(GraphOf(nodes), InputsOf(nodes), OutputsOf(nodes), TickersOf(nodes),
                                             ListsOf(tickers), TicksOf(tickers), Works(nodes))
  {
  }

  lemma ShapedBefore(nodes: set<Filter>, tickers: set<Ticker>)
    requires Good(nodes, tickers)
    ensures Shaped(WorldOf(nodes, tickers)) && WorldOf(nodes, tickers).gr.nodes == nodes
    ensures forall f :: f in nodes ==> |f.inputs| == f.ninputs && |f.outputs| == f.noutputs
  {
    WorldHas(nodes, tickers);
  }

  lemma PinsAre(nodes: set<Filter>)
    ensures InputsOf(nodes).Keys == nodes && forall f :: f in nodes ==> InputsOf(nodes)[f] == f.inputs
    ensures OutputsOf(nodes).Keys == nodes && forall f :: f in nodes ==> OutputsOf(nodes)[f] == f.outputs
  {
  }

  lemma TicksAre(tickers: set<Ticker>)
    ensures ListsOf(tickers).Keys == tickers && forall t :: t in tickers ==> ListsOf(tickers)[t] == t.executionList
    ensures TicksOf(tickers).Keys == tickers && forall t :: t in tickers ==> TicksOf(tickers)[t] == t.ticks
  {
  }

  lemma LinkedWorld(w: World, w': World, f1: Filter, pin1: nat, f2: Filter, pin2: nat, linked: bool)
    requires Shaped(w) && f1 in w.gr.nodes && f2 in w.gr.nodes && w' == w.(gr := w'.gr, ins := w'.ins, outs := w'.outs)
    requires w'.ins.Keys == w.ins.Keys && w'.outs.Keys == w.outs.Keys
    requires linked <==>
      pin1 < |w.outs[f1]| && pin2 < |w.ins[f2]| && w.outs[f1][pin1] == null && w.ins[f2][pin2] == null
    requires forall f :: f in w.outs && (f != f1 || !linked) ==> w'.outs[f] == w.outs[f]
    requires forall f :: f in w.ins && (f != f2 || !linked) ==> w'.ins[f] == w.ins[f]
    requires linked ==>
      && pin1 < |w'.outs[f1]| && w'.outs[f1][pin1] != null && w'.outs[f1] == w.outs[f1][pin1 := w'.outs[f1][pin1]]
      && w'.ins[f2] == w.ins[f2][pin2 := w'.outs[f1][pin1]] && OneLinkMore(w.gr, w'.gr, f1, f2)
    requires !linked ==> w'.gr == w.gr
    ensures Does(LinkPins(f1, pin1, f2, pin2), w, w', [], 0)
  {
    hide OneLinkMore, ValidGraph, Moved, Component, SourcesIn, Without, OwnLinks, Scheduled, Worked;
    hide Unlinks, Attaches, Detaches, Ticks;
    assert w'.outs == w.outs[f1 := w'.outs[f1]] && w'.ins == w.ins[f2 := w'.ins[f2]];
  }

  lemma UnlinkedWorld(w: World, w': World, f1: Filter, pin1: nat, f2: Filter, pin2: nat, linked: bool)
    requires Shaped(w) && f1 in w.gr.nodes && f2 in w.gr.nodes && w' == w.(gr := w'.gr, ins := w'.ins, outs := w'.outs)
    requires w'.ins.Keys == w.ins.Keys && w'.outs.Keys == w.outs.Keys
    requires linked <==> pin1 < |w.outs[f1]| && pin2 < |w.ins[f2]| && w.outs[f1][pin1] == w.ins[f2][pin2] != null
    requires forall f :: f in w.outs && (f != f1 || !linked) ==> w'.outs[f] == w.outs[f]
    requires forall f :: f in w.ins && (f != f2 || !linked) ==> w'.ins[f] == w.ins[f]
    requires linked ==>
      && w'.outs[f1] == w.outs[f1][pin1 := null] && w'.ins[f2] == w.ins[f2][pin2 := null]
      && OneLinkMore(w'.gr, w.gr, f1, f2)
    requires !linked ==> w'.gr == w.gr
    ensures Does(UnlinkPins(f1, pin1, f2, pin2), w, w', [], 0)
  {
    hide OneLinkMore, ValidGraph, Moved, Component, SourcesIn, Without, OwnLinks, Scheduled, Worked;
    hide Links, Attaches, Detaches, Ticks;
    assert w'.outs == w.outs[f1 := w'.outs[f1]] && w'.ins == w.ins[f2 := w'.ins[f2]];
  }

  method PerformLink(f1: Filter, pin1: nat, f2: Filter, pin2: nat, ghost nodes: set<Filter>, ghost tickers: set<Ticker>)
    requires Good(nodes, tickers) && f1 in nodes && f2 in nodes && f1.ticker == f2.ticker
    modifies f1`outputs, f2`inputs
    ensures Good(nodes, tickers) && forall q :: q in Queues(nodes) ==> q in old(Queues(nodes)) || fresh(q)
    ensures Does(LinkPins(f1, pin1, f2, pin2), old(WorldOf(nodes, tickers)), WorldOf(nodes, tickers), [], 0)
  {
    hide *;
    ghost var at, lists, ticks, works := TickersOf(nodes), ListsOf(tickers), TicksOf(tickers), Works(nodes);
    ghost var w := WorldOf(nodes, tickers);
    WorldIs(nodes, tickers);
    ShapedBefore(nodes, tickers);
    PinsAre(nodes);
    var r := LinkKeeps(f1, pin1, f2, pin2, nodes, tickers);
    assert TickersOf(nodes) == at;
    assert ListsOf(tickers) == lists;
    assert TicksOf(tickers) == ticks;
    assert Works(nodes) == works;
    WorldIs(nodes, tickers);
    PinsAre(nodes);
    LinkedWorld(w, WorldOf(nodes, tickers), f1, pin1, f2, pin2, r == 0);
  }

  method PerformUnlink(f1: Filter, pin1: nat, f2: Filter, pin2: nat, ghost nodes: set<Filter>,
      ghost tickers: set<Ticker>)
    requires Good(nodes, tickers) && f1 in nodes && f2 in nodes && f1.ticker == null
    modifies f1`outputs, f2`inputs
    ensures Good(nodes, tickers) && Queues(nodes) <= old(Queues(nodes))
    ensures Does(UnlinkPins(f1, pin1, f2, pin2), old(WorldOf(nodes, tickers)), WorldOf(nodes, tickers), [], 0)
  {
    hide *;
    ghost var at, lists, ticks, works := TickersOf(nodes), ListsOf(tickers), TicksOf(tickers), Works(nodes);
    ghost var w := WorldOf(nodes, tickers);
    WorldIs(nodes, tickers);
    ShapedBefore(nodes, tickers);
    PinsAre(nodes);
    var r := UnlinkKeeps(f1, pin1, f2, pin2, nodes, tickers);
    assert TickersOf(nodes) == at;
    assert ListsOf(tickers) == lists;
    assert TicksOf(tickers) == ticks;
    assert Works(nodes) == works;
    WorldIs(nodes, tickers);
    PinsAre(nodes);
    UnlinkedWorld(w, WorldOf(nodes, tickers), f1, pin1, f2, pin2, r == 0);
  }

  lemma GoodHas(nodes: set<Filter>, tickers: set<Ticker>)
    requires Good(nodes, tickers)
    ensures WellLinked(nodes) && Consistent(GraphOf(nodes), tickers) && Stamped(nodes, tickers)
            && GraphOf(nodes).nodes == nodes
  {
  }

  lemma GoodFrom(nodes: set<Filter>, tickers: set<Ticker>)
    requires WellLinked(nodes) && Consistent(GraphOf(nodes), tickers) && Stamped(nodes, tickers)
    ensures Good(nodes, tickers)
  {
  }

  /** The ticker and stamp of each filter. */
  ghost function Stamps(nodes: set<Filter>): map<Filter, (Ticker?, nat)>
    reads nodes`ticker, nodes`lastTick
  {
    map f | f in nodes :: (f.ticker, f.lastTick)
  }

  ghost predicate StampsWithin(stamps: map<Filter, (Ticker?, nat)>, tickers: set<Ticker>)
    reads tickers`ticks
  {
    forall f :: f in stamps && stamps[f].0 != null ==> stamps[f].0 in tickers && stamps[f].1 <= stamps[f].0.ticks
  }

  lemma StampedIs(nodes: set<Filter>, tickers: set<Ticker>)
    ensures Stamped(nodes, tickers) <==> StampsWithin(Stamps(nodes), tickers)
    ensures Stamps(nodes).Keys == nodes && forall f :: f in nodes ==> Stamps(nodes)[f] == (f.ticker, f.lastTick)
  {
    var stamps := Stamps(nodes);
    forall f | f in nodes && f.ticker != null
      ensures StampsWithin(stamps, tickers) ==> f.ticker in tickers && f.lastTick <= f.ticker.ticks
    {
      assert f in stamps && stamps[f].0 != null;
    }
    forall f | f in stamps && stamps[f].0 != null
      ensures Stamped(nodes, tickers) ==> stamps[f].0 in tickers && stamps[f].1 <= stamps[f].0.ticks
    {
      assert f in nodes && f.ticker != null;
    }
  }

  /** Stamps stay within their tickers when filters keep theirs, are let go, or start anew. */
  lemma StampsChange(before: map<Filter, (Ticker?, nat)>, after: map<Filter, (Ticker?, nat)>, tickers: set<Ticker>)
    requires StampsWithin(before, tickers) && after.Keys == before.Keys
    requires forall f :: f in after ==>
             after[f] == before[f] || after[f].0 == null || (after[f].0 in tickers && after[f].1 == 0)
    ensures StampsWithin(after, tickers)
  {
    forall f | f in after && after[f].0 != null
      ensures after[f].0 in tickers && after[f].1 <= after[f].0.ticks
    {
      assert f in before;
    }
  }

  lemma AttachedWorld(w: World, w': World, t: Ticker, f: Filter, added: seq<Filter>)
    requires Shaped(w) && f in w.gr.nodes && t in w.lists && w'.lists.Keys == w.lists.Keys
    requires w' == w.(at := w'.at, lists := w'.lists)
    requires w'.at == if w.at[f] == null then Moved(w.gr, w.at, f, t) else w.at
    requires w'.lists[t] == w.lists[t] + added && forall t' :: t' in w.lists && t' != t ==> w'.lists[t'] == w.lists[t']
    requires Elements(added) == if w.at[f] == null then SourcesIn(Component(w.gr, f)) else {}
    ensures Does(AttachTo(t, f), w, w', [], 0)
  {
    hide SourcesIn, Component, Moved, ValidGraph, OneLinkMore, Without, OwnLinks, Scheduled, Worked;
    if w.at[f] != null {
      ElementsEmpty(added);
      assert w'.lists[t] == w.lists[t];
      assert w'.lists == w.lists;
    } else {
      assert w'.lists[t][|w.lists[t]|..] == added;
      assert w'.lists == w.lists[t := w'.lists[t]];
    }
  }

  lemma DetachedWorld(w: World, w': World, t: Ticker, f: Filter)
    requires Shaped(w) && f in w.gr.nodes && t in w.lists && w'.lists.Keys == w.lists.Keys
    requires w' == w.(at := w'.at, lists := w'.lists) && w'.at == Moved(w.gr, w.at, f, null)
    requires w'.lists[t] == Without(w.lists[t], SourcesIn(Component(w.gr, f)))
    requires forall t' :: t' in w.lists && t' != t ==> w'.lists[t'] == w.lists[t']
    ensures Does(DetachFrom(t, f), w, w', [], 0)
  {
    hide SourcesIn, Component, Moved, ValidGraph, OneLinkMore, Without, OwnLinks, Scheduled, Worked;
    assert w'.lists == w.lists[t := w'.lists[t]];
  }

  method AttachKeeps(t: Ticker, f: Filter, ghost nodes: set<Filter>, ghost tickers: set<Ticker>)
    returns (aborted: bool, ghost added: seq<Filter>)
    requires Good(nodes, tickers) && t in tickers && f in nodes
    modifies nodes`seen, nodes`lastTick, nodes`ticker, t`executionList
    ensures !aborted ==> Good(nodes, tickers)
    ensures aborted ==> old(f.ticker) == null && SourcesIn(Component(old(GraphOf(nodes)), f)) == {}
    ensures Queues(nodes) == old(Queues(nodes)) && GraphOf(nodes) == old(GraphOf(nodes))
    ensures !aborted ==> old(ValidGraph(GraphOf(nodes)) && GraphOf(nodes).nodes == nodes)
    ensures !aborted ==>
      TickersOf(nodes) == if old(f.ticker) == null then Moved(old(GraphOf(nodes)), old(TickersOf(nodes)), f, t)
                          else old(TickersOf(nodes))
    ensures !aborted ==> t.executionList == old(t.executionList) + added
    ensures !aborted ==>
      Elements(added) == if old(f.ticker) == null then SourcesIn(Component(old(GraphOf(nodes)), f)) else {}
  {
    hide *;
    ghost var gr, stamps := GraphOf(nodes), Stamps(nodes);
    var r;
    GoodHas(nodes, tickers);
    StampedIs(nodes, tickers);
    r, added := Attach(t, f, gr, tickers);
    aborted := r != 0;
    if !aborted {
      StampedIs(nodes, tickers);
      StampsChange(stamps, Stamps(nodes), tickers);
      GoodFrom(nodes, tickers);
    }
  }

  method DetachKeeps(t: Ticker, f: Filter, ghost nodes: set<Filter>, ghost tickers: set<Ticker>)
    requires Good(nodes, tickers) && t in tickers && f in nodes && (f.ticker == null || f.ticker == t)
    modifies nodes`seen, nodes`ticker, t`executionList
    ensures Good(nodes, tickers) && Queues(nodes) == old(Queues(nodes)) && GraphOf(nodes) == old(GraphOf(nodes))
    ensures old(ValidGraph(GraphOf(nodes)) && GraphOf(nodes).nodes == nodes)
    ensures TickersOf(nodes) == Moved(old(GraphOf(nodes)), old(TickersOf(nodes)), f, null)
    ensures t.executionList == Without(old(t.executionList), SourcesIn(Component(old(GraphOf(nodes)), f)))
  {
    hide *;
    ghost var gr, stamps := GraphOf(nodes), Stamps(nodes);
    GoodHas(nodes, tickers);
    StampedIs(nodes, tickers);
    var r := Detach(t, f, gr, tickers);
    StampedIs(nodes, tickers);
    StampsChange(stamps, Stamps(nodes), tickers);
    GoodFrom(nodes, tickers);
  }

  lemma TickersAre(nodes: set<Filter>)
    ensures TickersOf(nodes).Keys == nodes && forall f :: f in nodes ==> TickersOf(nodes)[f] == f.ticker
  {
  }

  /** Attaching a filter that no source is connected to. */
  ghost predicate Aborts(op: Operation, w: World) {
    && Shaped(w) && Concerns(op, w.gr.nodes, w.lists.Keys)
    && op.AttachTo? && w.at[op.f] == null && SourcesIn(Component(w.gr, op.f)) == {}
  }

  lemma AbortsBefore(t: Ticker, f: Filter, nodes: set<Filter>, tickers: set<Ticker>)
    requires Good(nodes, tickers) && t in tickers && f in nodes
    ensures ValidGraph(GraphOf(nodes)) && f in GraphOf(nodes).nodes
    ensures f.ticker == null && SourcesIn(Component(GraphOf(nodes), f)) == {} ==>
              Aborts(AttachTo(t, f), WorldOf(nodes, tickers))
  {
    hide Good, ValidGraph, GraphOf, SourcesIn, Component;
    ShapedBefore(nodes, tickers);
    WorldIs(nodes, tickers);
    TicksAre(tickers);
    TickersAre(nodes);
  }

  method PerformAttach(t: Ticker, f: Filter, ghost nodes: set<Filter>, ghost tickers: set<Ticker>)
    returns (aborted: bool)
    requires Good(nodes, tickers) && t in tickers && f in nodes
    modifies nodes`seen, nodes`lastTick, nodes`ticker, t`executionList
    ensures !aborted ==> Good(nodes, tickers)
    ensures Queues(nodes) == old(Queues(nodes))
    ensures !aborted ==> Does(AttachTo(t, f), old(WorldOf(nodes, tickers)), WorldOf(nodes, tickers), [], 0)
    ensures aborted ==> Aborts(AttachTo(t, f), old(WorldOf(nodes, tickers)))
  {
    hide *;
    ghost var ins, outs, ticks, works := InputsOf(nodes), OutputsOf(nodes), TicksOf(tickers), Works(nodes);
    ghost var w, added := WorldOf(nodes, tickers), [];
    WorldIs(nodes, tickers);
    ShapedBefore(nodes, tickers);
    TicksAre(tickers);
    TickersAre(nodes);
    AbortsBefore(t, f, nodes, tickers);
    aborted, added := AttachKeeps(t, f, nodes, tickers);
    assert InputsOf(nodes) == ins;
    assert OutputsOf(nodes) == outs;
    assert TicksOf(tickers) == ticks;
    assert Works(nodes) == works;
    WorldIs(nodes, tickers);
    TicksAre(tickers);
    if !aborted {
      AttachedWorld(w, WorldOf(nodes, tickers), t, f, added);
    }
  }

  method PerformDetach(t: Ticker, f: Filter, ghost nodes: set<Filter>, ghost tickers: set<Ticker>)
    requires Good(nodes, tickers) && t in tickers && f in nodes && (f.ticker == null || f.ticker == t)
    modifies nodes`seen, nodes`ticker, t`executionList
    ensures Good(nodes, tickers) && Queues(nodes) == old(Queues(nodes))
    ensures Does(DetachFrom(t, f), old(WorldOf(nodes, tickers)), WorldOf(nodes, tickers), [], 0)
  {
    hide *;
    ghost var ins, outs, ticks, works := InputsOf(nodes), OutputsOf(nodes), TicksOf(tickers), Works(nodes);
    ghost var w := WorldOf(nodes, tickers);
    WorldIs(nodes, tickers);
    ShapedBefore(nodes, tickers);
    TicksAre(tickers);
    DetachKeeps(t, f, nodes, tickers);
    assert InputsOf(nodes) == ins;
    assert OutputsOf(nodes) == outs;
    assert TicksOf(tickers) == ticks;
    assert Works(nodes) == works;
    WorldIs(nodes, tickers);
    TicksAre(tickers);
    DetachedWorld(w, WorldOf(nodes, tickers), t, f);
  }

  /** A ticker's own stamps are overtaken by its count. */
  lemma TickStamps(before: map<Filter, (Ticker?, nat)>, after: map<Filter, (Ticker?, nat)>, own: set<Filter>,
      t: Ticker, tickers: set<Ticker>)
    requires after.Keys == before.Keys && forall f :: f in before ==> (f in own <==> before[f].0 == t)
    requires forall f :: f in after ==> after[f].0 == before[f].0 && (f !in own ==> after[f] == before[f])
    requires forall f :: f in own && f in after ==> after[f].1 <= t.ticks
    requires t in tickers && forall f :: f in before && before[f].0 != null && before[f].0 != t ==>
               before[f].0 in tickers && before[f].1 <= before[f].0.ticks
    ensures StampsWithin(after, tickers)
  {
  }

  lemma OwnStamps(nodes: set<Filter>, tickers: set<Ticker>, t: Ticker)
    requires Stamped(nodes, tickers)
    ensures forall f :: f in Own(nodes, t) ==> f.lastTick <= t.ticks
    ensures Own(nodes, t) <= nodes && forall f :: f in nodes ==> (f in Own(nodes, t) <==> Stamps(nodes)[f].0 == t)
    ensures forall f :: f in Stamps(nodes) && Stamps(nodes)[f].0 != null ==>
              Stamps(nodes)[f].0 in tickers && Stamps(nodes)[f].1 <= Stamps(nodes)[f].0.ticks
  {
  }

  lemma NodesOf(nodes: set<Filter>)
    ensures GraphOf(nodes).nodes == nodes
  {
  }

  /** Filters of one ticker that worked are filters of all that worked. */
  lemma WorkedWithin(own: set<Filter>, a: map<Filter, (nat, bool)>, b: map<Filter, (nat, bool)>,
                     wa: map<Filter, (nat, bool)>, wb: map<Filter, (nat, bool)>, log: seq<Filter>)
    requires own <= wa.Keys && wb.Keys == wa.Keys && a.Keys == own == b.Keys && Worked(a, b, log)
    requires forall f :: f in own ==> wa[f] == a[f] && wb[f] == b[f]
    requires forall f :: f in wa && f !in own ==> wb[f] == wa[f]
    requires Elements(log) <= own
    ensures Worked(wa, wb, log)
  {
    assert forall f :: f in log ==> f in Elements(log);
  }

  lemma ScheduledWithin(gr: Graph, list: seq<Filter>, log: seq<Filter>, k: nat)
    requires ValidGraph(gr) && Elements(list) <= gr.nodes && Scheduled(gr, list, log, k)
    ensures Elements(log) <= gr.nodes
  {
  }

  lemma OwnLinksAre(nodes: set<Filter>, own: set<Filter>, t: Ticker)
    requires own == Own(nodes, t)
    ensures own == (set f | f in GraphOf(nodes).nodes && TickersOf(nodes)[f] == t)
    ensures forall f :: f in own ==>
      f in nodes && GraphOf(own).succ[f] == GraphOf(nodes).succ[f] && GraphOf(own).pred[f] == GraphOf(nodes).pred[f]
    ensures GraphOf(own).nodes == own == GraphOf(own).succ.Keys == GraphOf(own).pred.Keys
    ensures GraphOf(nodes).succ.Keys == GraphOf(nodes).pred.Keys == nodes
  {
  }

  lemma TickedWorld(w: World, w': World, t: Ticker, own: Graph, log: seq<Filter>, k: nat)
    requires Shaped(w) && t in w.lists && own == OwnLinks(w, t) && w'.ticks.Keys == w.ticks.Keys
    requires w' == w.(ticks := w'.ticks, works := w'.works)
    requires w'.ticks[t] == w.ticks[t] + 1 && forall t' :: t' in w.ticks && t' != t ==> w'.ticks[t'] == w.ticks[t']
    requires ValidGraph(own) && Elements(w.lists[t]) <= own.nodes && Scheduled(own, w.lists[t], log, k)
    requires Worked(w.works, w'.works, log)
    ensures Does(TickOnce(t), w, w', log, k)
  {
    hide SourcesIn, Component, Moved, ValidGraph, OneLinkMore, Without, OwnLinks, Scheduled, Worked;
    assert w'.ticks == w.ticks[t := w.ticks[t] + 1];
  }

  /** A tick over a ticker's own filters, seen from all filters. */
  method TickOwn(t: Ticker, ghost nodes: set<Filter>, ghost tickers: set<Ticker>, ghost own: set<Filter>)
    returns (ghost log: seq<Filter>, ghost k: nat)
    requires Good(nodes, tickers) && t in tickers && own == Own(nodes, t)
    modifies t`ticks, nodes`lastTick, Queues(nodes)`count, nodes`worked, nodes`waited
    ensures Good(nodes, tickers) && Queues(nodes) == old(Queues(nodes))
    ensures t.ticks == old(t.ticks) + 1
    ensures var gr, list := old(GraphOf(own)), old(t.executionList);
            ValidGraph(gr) && Elements(list) <= gr.nodes && Scheduled(gr, list, log, k)
    ensures Worked(old(Works(own)), Works(own), log)
    ensures forall f :: f in nodes && f !in own ==> f.worked == old(f.worked) && f.waited == old(f.waited)
  {
    hide *;
    ghost var stamps := Stamps(nodes);
    GoodHas(nodes, tickers);
    StampedIs(nodes, tickers);
    OwnStamps(nodes, tickers, t);
    OwnGraph(nodes, tickers, t);
    NodesOf(own);
    QueuesExist(nodes);
    log, k := Tick(t, GraphOf(own));
    StampedIs(nodes, tickers);
    TickStamps(stamps, Stamps(nodes), own, t, tickers);
    GoodFrom(nodes, tickers);
  }

  lemma WorksOfOwn(nodes: set<Filter>, own: set<Filter>)
    requires own <= nodes
    ensures Works(nodes).Keys == nodes && Works(own).Keys == own
    ensures forall f :: f in own ==> Works(nodes)[f] == Works(own)[f]
    ensures forall f :: f in nodes ==> Works(nodes)[f] == (f.worked, f.waited)
  {
  }

  method PerformTick(t: Ticker, ghost nodes: set<Filter>, ghost tickers: set<Ticker>)
    returns (ghost log: seq<Filter>, ghost k: nat)
    requires Good(nodes, tickers) && t in tickers
    modifies t`ticks, nodes`lastTick, Queues(nodes)`count, nodes`worked, nodes`waited
    ensures Good(nodes, tickers) && Queues(nodes) == old(Queues(nodes))
    ensures Does(TickOnce(t), old(WorldOf(nodes, tickers)), WorldOf(nodes, tickers), log, k)
  {
    hide *;
    ghost var own := Own(nodes, t);
    ghost var gr, ins, outs, at, lists := GraphOf(nodes), InputsOf(nodes), OutputsOf(nodes), TickersOf(nodes),
        ListsOf(tickers);
    ghost var ticks, works, worksOwn := TicksOf(tickers), Works(nodes), Works(own);
    ghost var w := WorldOf(nodes, tickers);
    WorldIs(nodes, tickers);
    TicksAre(tickers);
    OwnLinksBefore(nodes, tickers, t);
    WorksOfOwn(nodes, own);
    QueuesExist(nodes);
    log, k := TickOwn(t, nodes, tickers, own);
    assert GraphOf(nodes) == gr;
    assert InputsOf(nodes) == ins;
    assert OutputsOf(nodes) == outs;
    assert TickersOf(nodes) == at;
    assert ListsOf(tickers) == lists;
    WorldIs(nodes, tickers);
    TicksAre(tickers);
    WorksOfOwn(nodes, own);
    assert WorldOf(nodes, tickers) == World(gr, ins, outs, at, lists, TicksOf(tickers), Works(nodes));
    assert Scheduled(OwnLinks(w, t), w.lists[t], log, k);
    TickDone(w, WorldOf(nodes, tickers), t, own, worksOwn, Works(own), log, k);
  }

  lemma TickDone(w: World, w': World, t: Ticker, own: set<Filter>, a: map<Filter, (nat, bool)>,
                 b: map<Filter, (nat, bool)>, log: seq<Filter>, k: nat)
    requires Shaped(w) && t in w.lists && w'.ticks.Keys == w.ticks.Keys && OwnLinks(w, t).nodes == own
    requires w' == w.(ticks := w'.ticks, works := w'.works)
    requires w'.ticks[t] == w.ticks[t] + 1 && forall t' :: t' in w.ticks && t' != t ==> w'.ticks[t'] == w.ticks[t']
    requires ValidGraph(OwnLinks(w, t)) && Elements(w.lists[t]) <= own && Scheduled(OwnLinks(w, t), w.lists[t], log, k)
    requires own <= w.works.Keys && w'.works.Keys == w.works.Keys && a.Keys == own == b.Keys && Worked(a, b, log)
    requires forall f :: f in own ==> w.works[f] == a[f] && w'.works[f] == b[f]
    requires forall f :: f in w.works && f !in own ==> w'.works[f] == w.works[f]
    ensures Does(TickOnce(t), w, w', log, k)
  {
    hide Scheduled, Worked, OwnLinks;
    ScheduledWithin(OwnLinks(w, t), w.lists[t], log, k);
    WorkedWithin(own, a, b, w.works, w'.works, log);
    TickedWorld(w, w', t, OwnLinks(w, t), log, k);
  }

  lemma OwnLinksBefore(nodes: set<Filter>, tickers: set<Ticker>, t: Ticker)
    requires Good(nodes, tickers)
    ensures Own(nodes, t) <= nodes
    ensures Shaped(WorldOf(nodes, tickers)) && OwnLinks(WorldOf(nodes, tickers), t) == GraphOf(Own(nodes, t))
    ensures GraphOf(Own(nodes, t)).nodes == Own(nodes, t)
  {
    hide GraphOf, Good, Own, TickersOf, WorldOf, Shaped, ListsOf, TicksOf, InputsOf, OutputsOf, Works;
    ShapedBefore(nodes, tickers);
    WorldIs(nodes, tickers);
    var w, own := WorldOf(nodes, tickers), Own(nodes, t);
    OwnLinksAre(nodes, own, t);
    var gr := GraphOf(own);
    assert OwnLinks(w, t).nodes == own;
    assert OwnLinks(w, t).succ == gr.succ;
    assert OwnLinks(w, t).pred == gr.pred;
  }

  /** One operation that is allowed; attaching without a source ends the program. */
  method Perform(op: Operation, ghost nodes: set<Filter>, ghost tickers: set<Ticker>)
    returns (aborted: bool, ghost log: seq<Filter>, ghost k: nat)
    requires Good(nodes, tickers) && Concerns(op, nodes, tickers) && Allowed(op)
    modifies nodes, tickers, Queues(nodes)`count
    ensures !aborted ==> Good(nodes, tickers)
    ensures !aborted ==> Does(op, old(WorldOf(nodes, tickers)), WorldOf(nodes, tickers), log, k)
    ensures aborted ==> Aborts(op, old(WorldOf(nodes, tickers)))
    ensures forall q :: q in Queues(nodes) ==> q in old(Queues(nodes)) || fresh(q)
  {
    hide Good, Queues, GraphOf, WorldOf, Does, Aborts;
    aborted, log, k := false, [], 0;
    match op
    case LinkPins(f1, pin1, f2, pin2) => PerformLink(f1, pin1, f2, pin2, nodes, tickers);
    case UnlinkPins(f1, pin1, f2, pin2) => PerformUnlink(f1, pin1, f2, pin2, nodes, tickers);
    case AttachTo(t, f) => aborted := PerformAttach(t, f, nodes, tickers);
    case DetachFrom(t, f) => PerformDetach(t, f, nodes, tickers);
    case TickOnce(t) => log, k := PerformTick(t, nodes, tickers);
  }

  // ----- Histories -----

  ghost predicate AllowedIn(op: Operation, w: World)
    requires Shaped(w) && Concerns(op, w.gr.nodes, w.lists.Keys)
  {
    match op
    case LinkPins(f1, _, f2, _) => w.at[f1] == w.at[f2]
    case UnlinkPins(f1, _, _, _) => w.at[f1] == null
    case AttachTo(_, _) => true
    case DetachFrom(t, f) => w.at[f] == null || w.at[f] == t
    case TickOnce(_) => true
  }

  /** An operation that is allowed does what it is for, any other is left out. */
  ghost predicate Follows(op: Operation, w: World, w': World, log: seq<Filter>, k: nat) {
    && Shaped(w) && Concerns(op, w.gr.nodes, w.lists.Keys)
    && if AllowedIn(op, w) then Does(op, w, w', log, k) else w' == w
  }

  lemma AllowedIs(op: Operation, nodes: set<Filter>, tickers: set<Ticker>)
    requires Good(nodes, tickers) && Concerns(op, nodes, tickers)
    ensures var w := WorldOf(nodes, tickers);
      Shaped(w) && Concerns(op, w.gr.nodes, w.lists.Keys) && (AllowedIn(op, w) <==> Allowed(op))
  {
    hide Good, ValidGraph, GraphOf;
    ShapedBefore(nodes, tickers);
    TicksAre(tickers);
    TickersAre(nodes);
  }

  /** Operations in order, from world to world. */
  ghost predicate Trace(ops: seq<Operation>, worlds: seq<World>, logs: seq<seq<Filter>>, ks: seq<nat>) {
    && |worlds| == |logs| + 1 == |ks| + 1 <= |ops| + 1
    && forall i :: 0 <= i < |logs| ==> Follows(ops[i], worlds[i], worlds[i + 1], logs[i], ks[i])
  }

  lemma TraceMore(ops: seq<Operation>, worlds: seq<World>, logs: seq<seq<Filter>>, ks: seq<nat>, w: World,
      log: seq<Filter>, k: nat)
    requires Trace(ops, worlds, logs, ks) && |logs| < |ops|
    requires Follows(ops[|logs|], worlds[|logs|], w, log, k)
    ensures Trace(ops, worlds + [w], logs + [log], ks + [k])
  {
    hide Follows;
  }

  /**
   * A history: operations in order, those that are not allowed left out, up to an attachment that ends the program.
   * Each makes of the world what it is for, and the state stays good.
   */
  method PerformAll(ops: seq<Operation>, ghost nodes: set<Filter>, ghost tickers: set<Ticker>)
    returns (aborted: bool, ghost worlds: seq<World>, ghost logs: seq<seq<Filter>>, ghost ks: seq<nat>)
    requires Good(nodes, tickers) && forall i :: 0 <= i < |ops| ==> Concerns(ops[i], nodes, tickers)
    modifies nodes, tickers, Queues(nodes)`count
    ensures !aborted ==> Good(nodes, tickers)
    ensures Trace(ops, worlds, logs, ks) && worlds[0] == old(WorldOf(nodes, tickers))
    ensures !aborted ==> |logs| == |ops| && worlds[|ops|] == WorldOf(nodes, tickers)
    ensures aborted ==> |logs| < |ops| && Aborts(ops[|logs|], worlds[|logs|])
  {
    hide Good, Queues, Concerns, WorldOf, Follows, Does, Trace, Aborts, GraphOf, ValidGraph, Component, SourcesIn;
    aborted, worlds, logs, ks := false, [WorldOf(nodes, tickers)], [], [];
    TraceStarts(ops, worlds[0]);
    for i := 0 to |ops|
      invariant !aborted && Good(nodes, tickers)
      invariant Trace(ops, worlds, logs, ks) && |logs| == i && |worlds| == i + 1
      invariant worlds[0] == old(WorldOf(nodes, tickers)) && worlds[i] == WorldOf(nodes, tickers)
      invariant forall q :: q in Queues(nodes) ==> q in old(Queues(nodes)) || fresh(q)
    {
      ghost var log, k := [], 0;
      AllowedIs(ops[i], nodes, tickers);
      if Allowed(ops[i]) {
        aborted, log, k := Perform(ops[i], nodes, tickers);
        if aborted {
          return;
        }
      }
      FollowsIs(ops[i], worlds[i], WorldOf(nodes, tickers), log, k);
      TraceMore(ops, worlds, logs, ks, WorldOf(nodes, tickers), log, k);
      worlds, logs, ks := worlds + [WorldOf(nodes, tickers)], logs + [log], ks + [k];
    }
  }

  lemma TraceStarts(ops: seq<Operation>, w: World)
    ensures Trace(ops, [w], [], [])
  {
  }

  lemma FollowsIs(op: Operation, w: World, w': World, log: seq<Filter>, k: nat)
    requires Shaped(w) && Concerns(op, w.gr.nodes, w.lists.Keys)
    requires if AllowedIn(op, w) then Does(op, w, w', log, k) else w' == w
    ensures Follows(op, w, w', log, k)
  {
  }
}
