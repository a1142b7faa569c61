/** Filters, the queues that link them, and tickers (msfilter.c, msqueue.c, msticker.c). */
module FilterGraph {

  /** A link between an output pin and an input pin, with the number of messages in it. */
  class Queue {
    const prev: Filter
    const prevPin: nat
    const next: Filter
    const nextPin: nat
    var count: nat

    constructor (f1: Filter, pin1: nat, f2: Filter, pin2: nat)
      ensures prev == f1 && prevPin == pin1 && next == f2 && nextPin == pin2 && count == 0
    {
      prev, prevPin, next, nextPin := f1, pin1, f2, pin2;
      count := 0;
    }
  }

  class Filter {
    const ninputs: nat
    const noutputs: nat
    var inputs: seq<Queue?>
    var outputs: seq<Queue?>
    var lastTick: nat
    var seen: bool
    var ticker: Ticker?
    // How often the filter's own work was called, and whether messages waited when it was last to work.
    ghost var worked: nat
    ghost var waited: bool

    constructor (ninputs: nat, noutputs: nat)
      ensures this.ninputs == ninputs && this.noutputs == noutputs
      ensures inputs == seq(ninputs, _ => null) && outputs == seq(noutputs, _ => null)
      ensures lastTick == 0 && !seen && ticker == null && worked == 0
    {
      this.ninputs, this.noutputs := ninputs, noutputs;
      inputs, outputs := seq(ninputs, _ => null), seq(noutputs, _ => null);
      lastTick, seen, ticker := 0, false, null;
      worked, waited := 0, false;
    }
  }

  class Ticker {
    var executionList: seq<Filter>
    var ticks: nat

    constructor ()
      ensures executionList == [] && ticks == 1
    {
      executionList, ticks := [], 1;
    }
  }

  // ----- Wiring -----

  /** The filters that a filter's outputs lead to. */
  ghost function Nexts(f: Filter): set<Filter>
    reads f`outputs
  {
    set i | 0 <= i < |f.outputs| && f.outputs[i] != null :: f.outputs[i].next
  }

  /** The filters that a filter's inputs come from. */
  ghost function Prevs(f: Filter): set<Filter>
    reads f`inputs
  {
    set i | 0 <= i < |f.inputs| && f.inputs[i] != null :: f.inputs[i].prev
  }

  /** Each end of a link is the pin that the link names, and both ends are among the nodes. */
  ghost predicate LinkedTo(f: Filter, nodes: set<Filter>)
    reads nodes`inputs, nodes`outputs, f`inputs, f`outputs
  {
    && |f.inputs| == f.ninputs && |f.outputs| == f.noutputs
    && (forall i :: 0 <= i < |f.outputs| && f.outputs[i] != null ==>
          var q := f.outputs[i];
          q.prev == f && q.prevPin == i && q.next in nodes && q.nextPin < |q.next.inputs|
          && q.next.inputs[q.nextPin] == q)
    && (forall i :: 0 <= i < |f.inputs| && f.inputs[i] != null ==>
          var q := f.inputs[i];
          q.next == f && q.nextPin == i && q.prev in nodes && q.prevPin < |q.prev.outputs|
          && q.prev.outputs[q.prevPin] == q)
  }

  ghost predicate WellLinked(nodes: set<Filter>)
    reads nodes`inputs, nodes`outputs
  {
    forall f :: f in nodes ==> LinkedTo(f, nodes)
  }

  /** The wiring as a value. */
  datatype Graph = Graph(nodes: set<Filter>, succ: map<Filter, set<Filter>>, pred: map<Filter, set<Filter>>)

  /** Successors and predecessors stay within the nodes and are each other's converse. */
  ghost predicate ValidGraph(gr: Graph) {
    && gr.succ.Keys == gr.nodes && gr.pred.Keys == gr.nodes
    && (forall f, g :: f in gr.nodes && g in gr.succ[f] ==> g in gr.nodes && f in gr.pred[g])
    && (forall f, g :: f in gr.nodes && g in gr.pred[f] ==> g in gr.nodes && f in gr.succ[g])
  }

  ghost function GraphOf(nodes: set<Filter>): Graph
    reads nodes`inputs, nodes`outputs
  {
    Graph(nodes, map f | f in nodes :: Nexts(f), map f | f in nodes :: Prevs(f))
  }

  lemma WellLinkedGraph(nodes: set<Filter>)
    requires WellLinked(nodes)
    ensures ValidGraph(GraphOf(nodes))
  {
    var gr := GraphOf(nodes);
    forall f, g | f in nodes && g in gr.succ[f]
      ensures g in nodes && f in gr.pred[g]
    {
      var i :| 0 <= i < |f.outputs| && f.outputs[i] != null && f.outputs[i].next == g;
      assert LinkedTo(f, nodes);
      assert g.inputs[f.outputs[i].nextPin] == f.outputs[i];
    }
    forall f, g | f in nodes && g in gr.pred[f]
      ensures g in nodes && f in gr.succ[g]
    {
      var i :| 0 <= i < |f.inputs| && f.inputs[i] != null && f.inputs[i].prev == g;
      assert LinkedTo(f, nodes);
      assert g.outputs[f.inputs[i].prevPin] == f.inputs[i];
    }
  }

  /** The queues that hang on the nodes' outputs. */
  ghost function Queues(nodes: set<Filter>): set<Queue>
    reads nodes`outputs
  {
    set f, i | f in nodes && 0 <= i < |f.outputs| && f.outputs[i] != null :: f.outputs[i] as Queue
  }
}
