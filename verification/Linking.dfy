/** Linking and unlinking pins (msfilter.c). */
module Linking {
  import opened FilterGraph
  import opened Schedules
  import opened Tickers
  import opened Components
  import opened Assignments
  import opened Attaching

  // ----- Pins as values -----

  type Pins = map<Filter, seq<Queue?>>

  ghost function InputsOf(nodes: set<Filter>): Pins
    reads nodes`inputs
  {
    map f | f in nodes :: f.inputs
  }

  ghost function OutputsOf(nodes: set<Filter>): Pins
    reads nodes`outputs
  {
    map f | f in nodes :: f.outputs
  }

  ghost predicate OutputsMatch(nodes: set<Filter>, ins: Pins, outs: Pins)
    requires ins.Keys == nodes && outs.Keys == nodes
  {
    forall f, i :: f in nodes && 0 <= i < |outs[f]| && outs[f][i] != null ==>
      var q := outs[f][i];
      q.prev == f && q.prevPin == i && q.next in nodes && q.nextPin < |ins[q.next]| && ins[q.next][q.nextPin] == q
  }

  ghost predicate InputsMatch(nodes: set<Filter>, ins: Pins, outs: Pins)
    requires ins.Keys == nodes && outs.Keys == nodes
  {
    forall f, i :: f in nodes && 0 <= i < |ins[f]| && ins[f][i] != null ==>
      var q := ins[f][i];
      q.next == f && q.nextPin == i && q.prev in nodes && q.prevPin < |outs[q.prev]| && outs[q.prev][q.prevPin] == q
  }

  /** Well linked, said of the pins as values. */
  ghost predicate PinsMatch(nodes: set<Filter>, ins: Pins, outs: Pins) {
    && ins.Keys == nodes && outs.Keys == nodes
    && (forall f :: f in nodes ==> |ins[f]| == f.ninputs && |outs[f]| == f.noutputs)
    && OutputsMatch(nodes, ins, outs) && InputsMatch(nodes, ins, outs)
  }

  lemma WellLinkedPins(nodes: set<Filter>)
    ensures WellLinked(nodes) <==> PinsMatch(nodes, InputsOf(nodes), OutputsOf(nodes))
  {
    var ins, outs := InputsOf(nodes), OutputsOf(nodes);
    if WellLinked(nodes) {
      forall f | f in nodes ensures LinkedTo(f, nodes) {}
      assert PinsMatch(nodes, ins, outs);
    }
    if PinsMatch(nodes, ins, outs) {
      forall f | f in nodes ensures LinkedTo(f, nodes) {}
    }
  }

  /** Putting a queue, or nothing, on two matching pins. */
  ghost predicate Rewired(ins: Pins, outs: Pins, ins': Pins, outs': Pins, f1: Filter, pin1: nat, f2: Filter,
      pin2: nat, q: Queue?) {
    && f1 in outs && f2 in ins && pin1 < |outs[f1]| && pin2 < |ins[f2]| && outs[f1][pin1] == ins[f2][pin2]
    && (q != null ==> q.prev == f1 && q.prevPin == pin1 && q.next == f2 && q.nextPin == pin2)
    && outs' == outs[f1 := outs[f1][pin1 := q]] && ins' == ins[f2 := ins[f2][pin2 := q]]
  }

  lemma RewiredOutputsMatch(nodes: set<Filter>, ins: Pins, outs: Pins, ins': Pins, outs': Pins,
                            f1: Filter, pin1: nat, f2: Filter, pin2: nat, q: Queue?)
    requires PinsMatch(nodes, ins, outs) && Rewired(ins, outs, ins', outs', f1, pin1, f2, pin2, q)
    ensures OutputsMatch(nodes, ins', outs')
  {
    hide InputsMatch;
  }

  lemma RewiredInputsMatch(nodes: set<Filter>, ins: Pins, outs: Pins, ins': Pins, outs': Pins,
                           f1: Filter, pin1: nat, f2: Filter, pin2: nat, q: Queue?)
    requires PinsMatch(nodes, ins, outs) && Rewired(ins, outs, ins', outs', f1, pin1, f2, pin2, q)
    ensures InputsMatch(nodes, ins', outs')
  {
    hide OutputsMatch;
  }

  lemma RewiredPinsMatch(nodes: set<Filter>, ins: Pins, outs: Pins, ins': Pins, outs': Pins,
                         f1: Filter, pin1: nat, f2: Filter, pin2: nat, q: Queue?)
    requires PinsMatch(nodes, ins, outs) && Rewired(ins, outs, ins', outs', f1, pin1, f2, pin2, q)
    ensures PinsMatch(nodes, ins', outs')
  {
    RewiredOutputsMatch(nodes, ins, outs, ins', outs', f1, pin1, f2, pin2, q);
    RewiredInputsMatch(nodes, ins, outs, ins', outs', f1, pin1, f2, pin2, q);
    hide OutputsMatch, InputsMatch;
  }

  // ----- The graph of the pins -----

  ghost function NextsAt(pins: seq<Queue?>): set<Filter> {
    set i | 0 <= i < |pins| && pins[i] != null :: pins[i].next
  }

  ghost function PrevsAt(pins: seq<Queue?>): set<Filter> {
    set i | 0 <= i < |pins| && pins[i] != null :: pins[i].prev
  }

  ghost function GraphAt(nodes: set<Filter>, ins: Pins, outs: Pins): Graph
    requires ins.Keys == nodes && outs.Keys == nodes
  {
    Graph(nodes, map f | f in nodes :: NextsAt(outs[f]), map f | f in nodes :: PrevsAt(ins[f]))
  }

  lemma GraphOfPins(nodes: set<Filter>)
    ensures GraphOf(nodes) == GraphAt(nodes, InputsOf(nodes), OutputsOf(nodes))
  {
    forall f | f in nodes
      ensures Nexts(f) == NextsAt(f.outputs) && Prevs(f) == PrevsAt(f.inputs)
    {
    }
  }

  lemma OneMorePin(pins: seq<Queue?>, pin: nat, q: Queue)
    requires pin < |pins| && pins[pin] == null
    ensures NextsAt(pins[pin := q]) == NextsAt(pins) + {q.next}
    ensures PrevsAt(pins[pin := q]) == PrevsAt(pins) + {q.prev}
  {
    var more := pins[pin := q];
    assert forall i :: 0 <= i < |pins| && pins[i] != null ==> more[i] == pins[i];
    assert more[pin] == q;
  }

  /** Putting a queue on free pins adds one link to the graph; taking it off takes the link away. */
  lemma LinkGrowsGraph(nodes: set<Filter>, ins: Pins, outs: Pins, ins': Pins, outs': Pins,
                       f1: Filter, pin1: nat, f2: Filter, pin2: nat, q: Queue)
    requires PinsMatch(nodes, ins, outs) && ins'.Keys == nodes && outs'.Keys == nodes
    requires Rewired(ins, outs, ins', outs', f1, pin1, f2, pin2, q) && outs[f1][pin1] == null
    ensures OneLinkMore(GraphAt(nodes, ins, outs), GraphAt(nodes, ins', outs'), f1, f2)
  {
    hide OutputsMatch, InputsMatch, NextsAt, PrevsAt;
    OneMorePin(outs[f1], pin1, q);
    OneMorePin(ins[f2], pin2, q);
  }

  /** Writing back what was there before is a rewiring too. */
  lemma RewiredBack(nodes: set<Filter>, ins: Pins, outs: Pins, ins': Pins, outs': Pins,
                    f1: Filter, pin1: nat, f2: Filter, pin2: nat, q: Queue?)
    requires PinsMatch(nodes, ins, outs) && Rewired(ins, outs, ins', outs', f1, pin1, f2, pin2, q)
    ensures Rewired(ins', outs', ins, outs, f1, pin1, f2, pin2, outs[f1][pin1])
  {
    var was := outs[f1][pin1];
    assert outs'[f1][pin1 := was] == outs[f1] && ins'[f2][pin2 := was] == ins[f2];
    assert outs == outs'[f1 := outs[f1]] && ins == ins'[f2 := ins[f2]];
  }

  /** The pins as values, before two of them are written. */
  lemma PinsBefore(nodes: set<Filter>, f1: Filter, f2: Filter)
    requires WellLinked(nodes) && f1 in nodes && f2 in nodes
    ensures PinsMatch(nodes, InputsOf(nodes), OutputsOf(nodes))
            && GraphOf(nodes) == GraphAt(nodes, InputsOf(nodes), OutputsOf(nodes))
    ensures InputsOf(nodes).Keys == nodes && OutputsOf(nodes).Keys == nodes
    ensures forall f :: f in nodes ==> InputsOf(nodes)[f] == f.inputs && OutputsOf(nodes)[f] == f.outputs
    ensures |f1.outputs| == f1.noutputs && |f2.inputs| == f2.ninputs
  {
    hide GraphOf, GraphAt;
    WellLinkedPins(nodes);
    GraphOfPins(nodes);
  }

  /** The pins as values, after two of them were written. */
  lemma PinsAfter(nodes: set<Filter>, ins: Pins, outs: Pins, f1: Filter, pin1: nat, f2: Filter, pin2: nat, q: Queue?)
    requires PinsMatch(nodes, ins, outs) && f1 in nodes && f2 in nodes
    requires pin1 < |outs[f1]| && pin2 < |ins[f2]| && outs[f1][pin1] == ins[f2][pin2]
    requires q != null ==> q.prev == f1 && q.prevPin == pin1 && q.next == f2 && q.nextPin == pin2
    requires forall f :: f in nodes ==> f.outputs == if f == f1 then outs[f1][pin1 := q] else outs[f]
    requires forall f :: f in nodes ==> f.inputs == if f == f2 then ins[f2][pin2 := q] else ins[f]
    ensures Rewired(ins, outs, InputsOf(nodes), OutputsOf(nodes), f1, pin1, f2, pin2, q) && WellLinked(nodes)
    ensures GraphOf(nodes) == GraphAt(nodes, InputsOf(nodes), OutputsOf(nodes))
    ensures q != null && outs[f1][pin1] == null ==> OneLinkMore(GraphAt(nodes, ins, outs), GraphOf(nodes), f1, f2)
    ensures q == null && outs[f1][pin1] != null ==> OneLinkMore(GraphOf(nodes), GraphAt(nodes, ins, outs), f1, f2)
  {
    hide OutputsMatch, InputsMatch, GraphOf, GraphAt, OneLinkMore, WellLinked;
    var ins', outs' := InputsOf(nodes), OutputsOf(nodes);
    RewiredPinsMatch(nodes, ins, outs, ins', outs', f1, pin1, f2, pin2, q);
    WellLinkedPins(nodes);
    GraphOfPins(nodes);
    if q != null && outs[f1][pin1] == null {
      LinkGrowsGraph(nodes, ins, outs, ins', outs', f1, pin1, f2, pin2, q);
    }
    if q == null && outs[f1][pin1] != null {
      RewiredBack(nodes, ins, outs, ins', outs', f1, pin1, f2, pin2, q);
      LinkGrowsGraph(nodes, ins', outs', ins, outs, f1, pin1, f2, pin2, outs[f1][pin1]);
    }
  }

  // ----- What links do to attachments -----

  lemma AgreeWithOneMore(gr: Graph, more: Graph, at: Assignment, f1: Filter, f2: Filter)
    requires ValidGraph(gr) && ValidGraph(more) && OneLinkMore(gr, more, f1, f2) && at.Keys == gr.nodes
    ensures TickersAgree(more, at) <==> TickersAgree(gr, at) && at[f1] == at[f2]
  {
    assert f2 in more.succ[f1];
    forall f, g | f in gr.nodes && g in gr.succ[f]
      ensures g in more.succ[f]
    {
    }
  }

  /** A new link keeps an assignment good exactly when both ends have the same ticker. */
  lemma LinkedIsAssigned(gr: Graph, more: Graph, tickers: set<Ticker>, at: Assignment, f1: Filter, f2: Filter)
    requires ValidGraph(gr) && ValidGraph(more) && OneLinkMore(gr, more, f1, f2) && at.Keys == gr.nodes
    requires Assigned(gr, tickers, at)
    ensures Assigned(more, tickers, at) <==> at[f1] == at[f2]
  {
    hide Component, TickersAgree;
    AgreeWithOneMore(gr, more, at, f1, f2);
    forall f | f in gr.nodes && at[f] != null
      ensures SourcesIn(Component(more, f)) != {}
    {
      ComponentGrows(gr, more, f1, f2, f);
    }
  }

  /** Taking a link away keeps an assignment good exactly when what was attached still has a source on each side. */
  lemma UnlinkedIsAssigned(gr: Graph, more: Graph, tickers: set<Ticker>, at: Assignment, f1: Filter, f2: Filter)
    requires ValidGraph(gr) && ValidGraph(more) && OneLinkMore(gr, more, f1, f2) && at.Keys == gr.nodes
    requires Assigned(more, tickers, at)
    ensures Assigned(gr, tickers, at) <==>
            at[f1] == null || (SourcesIn(Component(gr, f1)) != {} && SourcesIn(Component(gr, f2)) != {})
  {
    hide Component, TickersAgree, SourcesIn;
    AgreeWithOneMore(gr, more, at, f1, f2);
    if at[f1] == null || (SourcesIn(Component(gr, f1)) != {} && SourcesIn(Component(gr, f2)) != {}) {
      forall f | f in gr.nodes && at[f] != null
        ensures SourcesIn(Component(gr, f)) != {}
      {
        ComponentTicker(gr, at, f);
        if f1 in Component(gr, f) {
          ComponentIsShared(gr, f, f1);
        } else if f2 in Component(gr, f) {
          ComponentIsShared(gr, f, f2);
        } else {
          ComponentAway(gr, more, f1, f2, f);
        }
      }
    }
  }

  /** The part of consistency that does not look at the wiring. */
  ghost predicate Settings(nodes: set<Filter>, tickers: set<Ticker>, at: Assignment)
    reads nodes`seen, nodes`ticker, tickers`executionList
  {
    && Seen(nodes) == {} && TickersOf(nodes) == at && forall t :: t in tickers ==> Listed(at, t, t.executionList)
  }

  lemma SettingsBefore(nodes: set<Filter>, tickers: set<Ticker>, f: Filter)
    requires Consistent(GraphOf(nodes), tickers) && f in nodes
    ensures ValidGraph(GraphOf(nodes)) && Settings(nodes, tickers, TickersOf(nodes))
            && Assigned(GraphOf(nodes), tickers, TickersOf(nodes))
  {
  }

  lemma ConsistentAfterLink(nodes: set<Filter>, tickers: set<Ticker>, before: Graph, at: Assignment, f1: Filter,
      f2: Filter)
    requires WellLinked(nodes) && ValidGraph(before) && OneLinkMore(before, GraphOf(nodes), f1, f2)
    requires Settings(nodes, tickers, at) && Assigned(before, tickers, at)
    ensures Consistent(GraphOf(nodes), tickers) <==> f1.ticker == f2.ticker
  {
    hide Listed, Assigned, WellLinked, OneLinkMore;
    WellLinkedGraph(nodes);
    SameNodes(before, GraphOf(nodes), f1, f2);
    LinkedIsAssigned(before, GraphOf(nodes), tickers, at, f1, f2);
  }

  lemma ConsistentAfterUnlink(nodes: set<Filter>, tickers: set<Ticker>, before: Graph, at: Assignment, f1: Filter,
      f2: Filter)
    requires WellLinked(nodes) && ValidGraph(before) && OneLinkMore(GraphOf(nodes), before, f1, f2)
    requires Settings(nodes, tickers, at) && Assigned(before, tickers, at)
    ensures Consistent(GraphOf(nodes), tickers) <==> StillDriven(GraphOf(nodes), f1, f2)
  {
    hide Listed, Assigned, WellLinked, OneLinkMore, Component;
    WellLinkedGraph(nodes);
    SameNodes(GraphOf(nodes), before, f1, f2);
    UnlinkedIsAssigned(GraphOf(nodes), before, tickers, at, f1, f2);
  }

  /** Two filters that are not attached, or that each have a source left. */
  ghost predicate StillDriven(gr: Graph, f1: Filter, f2: Filter)
    reads f1`ticker
  {
    f1.ticker == null
    || (ValidGraph(gr) && f1 in gr.nodes && f2 in gr.nodes && SourcesIn(Component(gr, f1)) != {}
      && SourcesIn(Component(gr, f2)) != {})
  }

  lemma SameNodes(gr: Graph, more: Graph, f1: Filter, f2: Filter)
    requires OneLinkMore(gr, more, f1, f2)
    ensures more.nodes == gr.nodes && f1 in gr.nodes && f2 in gr.nodes
  {
  }

  /** Writing a pin at each end; nothing else changes. */
  method WritePins(f1: Filter, pin1: nat, f2: Filter, pin2: nat, q: Queue?, ghost nodes: set<Filter>,
      ghost tickers: set<Ticker>,
                   ghost at: Assignment)
    requires pin1 < |f1.outputs| && pin2 < |f2.inputs| && f1 in nodes && f2 in nodes
    modifies f1`outputs, f2`inputs
    ensures f1.outputs == old(f1.outputs)[pin1 := q] && f2.inputs == old(f2.inputs)[pin2 := q]
    ensures old(Settings(nodes, tickers, at)) ==> Settings(nodes, tickers, at)
  {
    f1.outputs := f1.outputs[pin1 := q];
    f2.inputs := f2.inputs[pin2 := q];
  }

  /** Linking two free pins; pins that do not exist or are taken are refused. */
  method Link(f1: Filter, pin1: nat, f2: Filter, pin2: nat, ghost nodes: set<Filter>, ghost tickers: set<Ticker>)
    returns (r: int)
    requires WellLinked(nodes) && f1 in nodes && f2 in nodes
    modifies f1`outputs, f2`inputs
    ensures r == if pin1 < f1.noutputs && pin2 < f2.ninputs
                    && old(f1.outputs)[pin1] == null && old(f2.inputs)[pin2] == null then 0 else -1
    ensures WellLinked(nodes)
    ensures r == -1 ==> GraphOf(nodes) == old(GraphOf(nodes))
    ensures r == 0 ==> OneLinkMore(old(GraphOf(nodes)), GraphOf(nodes), f1, f2)
    ensures r == 0 ==>
      && pin1 < |f1.outputs| == |old(f1.outputs)| && f1.outputs[pin1] != null
      && fresh(f1.outputs[pin1]) && f1.outputs[pin1].count == 0
      && f1.outputs == old(f1.outputs)[pin1 := f1.outputs[pin1]]
      && pin2 < f2.ninputs == |old(f2.inputs)| && f2.inputs == old(f2.inputs)[pin2 := f1.outputs[pin1]]
    ensures r == -1 ==> unchanged(f1`outputs, f2`inputs)
    ensures old(Consistent(GraphOf(nodes), tickers)) ==>
      (Consistent(GraphOf(nodes), tickers) <==> r == -1 || f1.ticker == f2.ticker)
  {
    ghost var ins, outs := InputsOf(nodes), OutputsOf(nodes);
    hide *;
    ghost var at, before, good := TickersOf(nodes), GraphOf(nodes), Consistent(GraphOf(nodes), tickers);
    PinsBefore(nodes, f1, f2);
    if good {
      SettingsBefore(nodes, tickers, f1);
    }
    if !(pin1 < f1.noutputs) { return -1; }
    if !(pin2 < f2.ninputs) { return -1; }
    if f1.outputs[pin1] != null { return -1; }
    if f2.inputs[pin2] != null { return -1; }
    var q := new Queue(f1, pin1, f2, pin2);
    assert good ==> Settings(nodes, tickers, at);
    WritePins(f1, pin1, f2, pin2, q, nodes, tickers, at);
    r := 0;
    PinsAfter(nodes, ins, outs, f1, pin1, f2, pin2, q);
    if good {
      ConsistentAfterLink(nodes, tickers, before, at, f1, f2);
    }
  }

  /** Unlinking two pins that hold the same queue. */
  method Unlink(f1: Filter, pin1: nat, f2: Filter, pin2: nat, ghost nodes: set<Filter>, ghost tickers: set<Ticker>)
    returns (r: int)
    requires WellLinked(nodes) && f1 in nodes && f2 in nodes
    modifies f1`outputs, f2`inputs
    ensures r == if pin1 < f1.noutputs && pin2 < f2.ninputs
                    && old(f1.outputs)[pin1] == old(f2.inputs)[pin2] != null then 0 else -1
    ensures WellLinked(nodes)
    ensures r == -1 ==> GraphOf(nodes) == old(GraphOf(nodes))
    ensures r == 0 ==> OneLinkMore(GraphOf(nodes), old(GraphOf(nodes)), f1, f2)
    ensures r == 0 ==> pin1 < |old(f1.outputs)| && f1.outputs == old(f1.outputs)[pin1 := null]
                       && pin2 < |old(f2.inputs)| && f2.inputs == old(f2.inputs)[pin2 := null]
    ensures r == -1 ==> unchanged(f1`outputs, f2`inputs)
    ensures old(Consistent(GraphOf(nodes), tickers)) ==>
      (Consistent(GraphOf(nodes), tickers) <==> r == -1 || StillDriven(GraphOf(nodes), f1, f2))
  {
    ghost var ins, outs := InputsOf(nodes), OutputsOf(nodes);
    hide *;
    ghost var at, before, good := TickersOf(nodes), GraphOf(nodes), Consistent(GraphOf(nodes), tickers);
    PinsBefore(nodes, f1, f2);
    if good {
      SettingsBefore(nodes, tickers, f1);
    }
    if !(pin1 < f1.noutputs) { return -1; }
    if !(pin2 < f2.ninputs) { return -1; }
    if f1.outputs[pin1] == null { return -1; }
    if f2.inputs[pin2] == null { return -1; }
    if f1.outputs[pin1] != f2.inputs[pin2] { return -1; }
    WritePins(f1, pin1, f2, pin2, null, nodes, tickers, at);
    r := 0;
    PinsAfter(nodes, ins, outs, f1, pin1, f2, pin2, null);
    if good {
      ConsistentAfterUnlink(nodes, tickers, before, at, f1, f2);
    }
  }
}
