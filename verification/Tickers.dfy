/** Running the filters of a ticker (msticker.c, msfilter.c). */
module Tickers {
  import opened FilterGraph
  import opened Schedules
  import opened Descents

  /** The filters stamped with a tick. */
  ghost function Visited(nodes: set<Filter>, tick: nat): set<Filter>
    reads nodes`lastTick
  {
    set f | f in nodes && f.lastTick == tick
  }

  /** A graph value that describes the wiring. */
  ghost predicate Wired(gr: Graph)
    reads gr.nodes`inputs, gr.nodes`outputs
  {
    WellLinked(gr.nodes) && gr == GraphOf(gr.nodes)
  }

  ghost function InQueues(f: Filter): set<Queue>
    reads f`inputs
  {
    set i | 0 <= i < |f.inputs| && f.inputs[i] != null :: f.inputs[i] as Queue
  }

  ghost function OutQueues(f: Filter): set<Queue>
    reads f`outputs
  {
    set i | 0 <= i < |f.outputs| && f.outputs[i] != null :: f.outputs[i] as Queue
  }

  lemma WiredNode(gr: Graph, f: Filter)
    requires Wired(gr) && f in gr.nodes
    ensures ValidGraph(gr) && f in gr.succ && f in gr.pred && Nexts(f) == gr.succ[f] && Prevs(f) == gr.pred[f]
            && |f.inputs| == f.ninputs
    ensures InQueues(f) <= Queues(gr.nodes) && OutQueues(f) <= Queues(gr.nodes)
  {
    WellLinkedGraph(gr.nodes);
    assert LinkedTo(f, gr.nodes);
    forall q | q in InQueues(f)
      ensures q in Queues(gr.nodes)
    {
      assert q.prev.outputs[q.prevPin] == q;
    }
  }

  lemma QueuesExist(nodes: set<Filter>)
    ensures forall q :: q in Queues(nodes) ==> allocated(q)
  {
  }

  /** Messages wait only between a filter that ran and one that did not. */
  ghost predicate WaitsBehind(nodes: set<Filter>, visited: set<Filter>)
    reads nodes`outputs, Queues(nodes)`count
  {
    forall q :: q in Queues(nodes) && q.count > 0 ==> q.prev in visited && q.next !in visited
  }

  ghost predicate AllEmpty(nodes: set<Filter>)
    reads nodes`outputs, Queues(nodes)`count
  {
    forall q :: q in Queues(nodes) ==> q.count == 0
  }

  // ----- One filter -----

  /** A message waits on one of the inputs. */
  ghost predicate HasData(f: Filter)
    reads f`inputs, InQueues(f)`count
  {
    exists q :: q in InQueues(f) && q.count > 0
  }

  method InputsHaveData(f: Filter) returns (some: bool)
    ensures some <==> HasData(f)
  {
    var i := 0;
    while i < |f.inputs|
      invariant 0 <= i <= |f.inputs|
      invariant forall j :: 0 <= j < i && f.inputs[j] != null ==> f.inputs[j].count == 0
    {
      var q := f.inputs[i];
      if q != null && q.count > 0 {
        assert q in InQueues(f);
        return true;
      }
      i := i + 1;
    }
    return false;
  }

  /** A filter's own work: any number of messages to each output, and nothing left on the inputs. */
  method Process(f: Filter)
    modifies InQueues(f)`count, OutQueues(f)`count, f`worked
    ensures f.worked == old(f.worked) + 1
    ensures forall q :: q in InQueues(f) ==> q.count == 0
  {
    f.worked := f.worked + 1;
    var i := 0;
    while i < |f.outputs|
      modifies OutQueues(f)`count
    {
      var q := f.outputs[i];
      if q != null {
        assert q in OutQueues(f);
        var sent :| 0 <= sent;
        q.count := q.count + sent;
      }
      i := i + 1;
    }
    i := 0;
    while i < |f.inputs|
      invariant 0 <= i <= |f.inputs|
      invariant forall j :: 0 <= j < i && f.inputs[j] != null ==> f.inputs[j].count == 0
      modifies InQueues(f)`count
    {
      var q := f.inputs[i];
      if q != null {
        assert q in InQueues(f);
        q.count := 0;
      }
      i := i + 1;
    }
  }

  /** A source works once; any other filter works while its inputs hold messages, so at most once. */
  method CallProcess(f: Filter) returns (calls: nat)
    requires |f.inputs| == f.ninputs
    modifies InQueues(f)`count, OutQueues(f)`count, f`worked, f`waited
    ensures f.worked == old(f.worked) + calls
    ensures f.waited == old(HasData(f))
    ensures calls == if f.ninputs == 0 || old(HasData(f)) then 1 else 0
    ensures calls == 0 ==> forall q :: q in OutQueues(f) ==> q.count == old(q.count)
    ensures forall q :: q in InQueues(f) ==> q.count == 0
  {
    calls := 0;
    f.waited := HasData(f);
    if f.ninputs == 0 {
      Process(f);
      calls := 1;
    } else {
      var more := InputsHaveData(f);
      while more
        invariant f.worked == old(f.worked) + calls
        invariant f.waited == old(HasData(f))
        invariant more <==> HasData(f)
        invariant calls == 0 ==> more == old(HasData(f))
        invariant calls == 0 ==> forall q :: q in InQueues(f) + OutQueues(f) ==> q.count == old(q.count)
        invariant calls > 0 ==> calls == 1 && !more && old(HasData(f))
        decreases more
      {
        Process(f);
        calls := calls + 1;
        more := InputsHaveData(f);
      }
    }
  }

  /** Everything upstream has been stamped. */
  method CanProcess(f: Filter, tick: nat) returns (can: bool)
    ensures can <==> forall g :: g in Prevs(f) ==> g.lastTick == tick
  {
    var i := 0;
    while i < |f.inputs|
      invariant 0 <= i <= |f.inputs|
      invariant forall j :: 0 <= j < i && f.inputs[j] != null ==> f.inputs[j].prev.lastTick == tick
    {
      var l := f.inputs[i];
      if l != null && l.prev.lastTick != tick {
        assert l.prev in Prevs(f);
        return false;
      }
      i := i + 1;
    }
    return true;
  }

  // ----- The work that was done -----

  /** How often each filter worked, and whether messages waited when it last could. */
  ghost function Works(nodes: set<Filter>): map<Filter, (nat, bool)>
    reads nodes`worked, nodes`waited
  {
    map f | f in nodes :: (f.worked, f.waited)
  }

  /** What a filter that is let work does: a source works once, any other filter once if messages waited. */
  ghost function Share(f: Filter, waited: bool): nat {
    if f.ninputs == 0 || waited then 1 else 0
  }

  /** Each filter of a log was let work once, and no other filter was. */
  ghost predicate Worked(a: map<Filter, (nat, bool)>, b: map<Filter, (nat, bool)>, log: seq<Filter>) {
    && a.Keys == b.Keys
    && (forall f :: f in b && f in log ==> b[f].0 == a[f].0 + Share(f, b[f].1))
    && (forall f :: f in b && f !in log ==> b[f] == a[f])
  }

  lemma WorksAre(nodes: set<Filter>)
    ensures Works(nodes).Keys == nodes && forall f :: f in nodes ==> Works(nodes)[f] == (f.worked, f.waited)
    ensures Worked(Works(nodes), Works(nodes), [])
  {
  }

  lemma WorkedThen(a: map<Filter, (nat, bool)>, b: map<Filter, (nat, bool)>, c: map<Filter, (nat, bool)>,
                   log1: seq<Filter>, log2: seq<Filter>)
    requires Worked(a, b, log1) && Worked(b, c, log2) && NoDuplicates(log1 + log2)
    ensures Worked(a, c, log1 + log2)
  {
    forall i, j | 0 <= i < |log1| && 0 <= j < |log2|
      ensures log1[i] != log2[j]
    {
      assert (log1 + log2)[i] == log1[i] && (log1 + log2)[|log1| + j] == log2[j];
    }
  }

  lemma DescentOnce(gr: Graph, reach: set<Filter>, force: bool, a: State, b: State, log: seq<Filter>,
      frontier: set<Filter>)
    requires ValidGraph(gr) && Descent(gr, reach, force, a, b, log, frontier)
    ensures NoDuplicates(log)
  {
  }

  lemma PassOnce(gr: Graph, reach: set<Filter>, list: seq<Filter>, force: bool, visited: set<Filter>,
      visited': set<Filter>, log: seq<Filter>, k: nat)
    requires ValidGraph(gr) && Pass(gr, reach, list, force, visited, visited', log, k)
    ensures NoDuplicates(log)
  {
  }

  // ----- A descent -----

  ghost function StateOf(nodes: set<Filter>, tick: nat, deferred: seq<Filter>): State
    reads nodes`lastTick
  {
    State(Visited(nodes, tick), deferred)
  }

  /** Running a filter whose inputs all ran moves the waiting messages past it. */
  lemma ProcessedQueues(gr: Graph, f: Filter, visited: set<Filter>, waiting: set<Queue>)
    requires Wired(gr) && ValidGraph(gr) && f in gr.nodes && f !in visited && gr.pred[f] <= visited
             && PredClosed(gr, visited)
    requires forall q :: q in waiting ==> q.prev in visited && q.next !in visited
    requires forall q :: q in Queues(gr.nodes) && q.count > 0 ==>
             q !in InQueues(f) && (q in waiting || q in OutQueues(f))
    ensures WaitsBehind(gr.nodes, visited + {f})
  {
    forall q | q in Queues(gr.nodes) && q.count > 0
      ensures q.prev in visited + {f} && q.next !in visited + {f}
    {
      assert q.prev in gr.pred[q.next];
    }
  }

  /** Messages wait only behind the visited filters, each of which had its inputs run. */
  ghost predicate Quiet(gr: Graph, tick: nat)
    requires ValidGraph(gr)
    reads gr.nodes`lastTick, gr.nodes`outputs, Queues(gr.nodes)`count
  {
    PredClosed(gr, Visited(gr.nodes, tick)) && WaitsBehind(gr.nodes, Visited(gr.nodes, tick))
  }

  ghost function Waiting(nodes: set<Filter>): set<Queue>
    reads nodes`outputs, Queues(nodes)`count
  {
    set q | q in Queues(nodes) && q.count > 0
  }

  lemma QuietAgain(gr: Graph, f: Filter, visited: set<Filter>, waiting: set<Queue>, tick: nat)
    requires Wired(gr) && ValidGraph(gr) && f in gr.nodes && f !in visited && gr.pred[f] <= visited
             && PredClosed(gr, visited)
    requires forall q :: q in waiting ==> q.prev in visited && q.next !in visited
    requires Waiting(gr.nodes) !! InQueues(f) && Waiting(gr.nodes) <= waiting + OutQueues(f)
    requires Visited(gr.nodes, tick) == visited + {f}
    ensures Quiet(gr, tick)
  {
    hide Wired;
    assert forall q :: q in Queues(gr.nodes) && q.count > 0 ==> q in Waiting(gr.nodes);
    ProcessedQueues(gr, f, visited, waiting);
  }

  /** Letting a stamped filter work: messages that waited behind the others now wait behind it too. */
  method Work(f: Filter, ghost visited: set<Filter>, ghost tick: nat, ghost gr: Graph)
    requires Wired(gr) && ValidGraph(gr) && f in gr.nodes && f !in visited && Visited(gr.nodes, tick) == visited + {f}
    modifies InQueues(f)`count, OutQueues(f)`count, f`worked, f`waited
    ensures f.waited == old(HasData(f))
    ensures f.worked == old(f.worked) + Share(f, f.waited)
    ensures old(gr.pred[f] <= visited && PredClosed(gr, visited) && WaitsBehind(gr.nodes, visited)) ==> Quiet(gr, tick)
  {
    hide Wired, ValidGraph, PredClosed, Quiet, Queues, InQueues, OutQueues, Nexts, Prevs, HasData;
    WiredNode(gr, f);
    ghost var waiting := Waiting(gr.nodes);
    ghost var quiet := gr.pred[f] <= visited && PredClosed(gr, visited) && WaitsBehind(gr.nodes, visited);
    ghost var all, ins, outs := Queues(gr.nodes), InQueues(f), OutQueues(f);
    QueuesExist(gr.nodes);
    assert quiet ==> forall q :: q in waiting ==> q.prev in visited && q.next !in visited;
    hide WaitsBehind;
    var calls := CallProcess(f);
    assert Queues(gr.nodes) == all && InQueues(f) == ins && OutQueues(f) == outs;
    assert Waiting(gr.nodes) !! ins && Waiting(gr.nodes) <= waiting + outs;
    if quiet {
      QuietAgain(gr, f, visited, waiting, tick);
    }
  }

  /** Stamping a filter and letting it work. */
  method Schedule(f: Filter, s: Ticker, ghost gr: Graph)
    requires Wired(gr) && ValidGraph(gr) && f in gr.nodes && f.lastTick != s.ticks
    modifies gr.nodes`lastTick, Queues(gr.nodes)`count, gr.nodes`worked, gr.nodes`waited
    ensures forall g :: g in gr.nodes && g != f ==> g.lastTick == old(g.lastTick)
    ensures f.waited == old(HasData(f))
    ensures Worked(old(Works(gr.nodes)), Works(gr.nodes), [f])
    ensures f.lastTick == s.ticks && Visited(gr.nodes, s.ticks) == old(Visited(gr.nodes, s.ticks)) + {f}
    ensures old(gr.pred[f] <= Visited(gr.nodes, s.ticks) && Quiet(gr, s.ticks)) ==> Quiet(gr, s.ticks)
  {
    hide Wired, ValidGraph, PredClosed, WaitsBehind, Queues, InQueues, OutQueues, Nexts, Prevs, HasData;
    WiredNode(gr, f);
    ghost var visited := Visited(gr.nodes, s.ticks);
    f.lastTick := s.ticks;
    Work(f, visited, s.ticks, gr);
  }

  /** What the outputs from a pin on lead to. */
  ghost function NextsFrom(f: Filter, i: nat): set<Filter>
    reads f`outputs
  {
    set j | i <= j < |f.outputs| && f.outputs[j] != null :: f.outputs[j].next
  }

  lemma NextPin(f: Filter, i: nat)
    requires i < |f.outputs|
    ensures f.outputs[i] == null ==> NextsFrom(f, i) == NextsFrom(f, i + 1)
    ensures f.outputs[i] != null ==>
            NextsFrom(f, i) == NextsFrom(f, i + 1) + {f.outputs[i].next} && f.outputs[i].next in Nexts(f)
  {
  }

  lemma AllPins(f: Filter)
    ensures NextsFrom(f, 0) == Nexts(f) && NextsFrom(f, |f.outputs|) == {}
  {
  }

  lemma StatesAre(nodes: set<Filter>, tick: nat, deferred: seq<Filter>)
    ensures StateOf(nodes, tick, deferred) == State(Visited(nodes, tick), deferred)
    ensures Visited(nodes, tick) <= nodes
    ensures forall f :: f in Visited(nodes, tick) <==> f in nodes && f.lastTick == tick
  {
  }

  lemma ReachedNode(gr: Graph, reach: set<Filter>, f: Filter)
    requires ValidGraph(gr) && Closed(gr, reach) && f in reach
    ensures f in gr.nodes && gr.succ[f] <= reach
  {
  }

  lemma UpstreamVisited(gr: Graph, f: Filter, tick: nat)
    requires ValidGraph(gr) && f in gr.nodes
    ensures gr.pred[f] <= Visited(gr.nodes, tick) <==> forall g :: g in gr.pred[f] ==> g.lastTick == tick
  {
  }

  method RunGraph(f: Filter, s: Ticker, deferred: seq<Filter>, force: bool, ghost gr: Graph, ghost reach: set<Filter>)
    returns (deferred': seq<Filter>, ghost log: seq<Filter>)
    requires Wired(gr) && ValidGraph(gr) && Closed(gr, reach) && f in reach
    modifies gr.nodes`lastTick, Queues(gr.nodes)`count, gr.nodes`worked, gr.nodes`waited
    ensures Descent(gr, reach, force, old(StateOf(gr.nodes, s.ticks, deferred)),
            StateOf(gr.nodes, s.ticks, deferred'), log, {})
    ensures Worked(old(Works(gr.nodes)), Works(gr.nodes), log)
    ensures Settled(gr, f, StateOf(gr.nodes, s.ticks, deferred'))
    ensures forall g :: g in gr.nodes ==> g.lastTick == s.ticks || g.lastTick == old(g.lastTick)
    ensures (!force || log == []) && old(Quiet(gr, s.ticks)) ==> Quiet(gr, s.ticks)
    decreases gr.nodes - Visited(gr.nodes, s.ticks), 0
  {
    hide *;
    ghost var before, works := StateOf(gr.nodes, s.ticks, deferred), Works(gr.nodes);
    deferred', log := deferred, [];
    StatesAre(gr.nodes, s.ticks, deferred);
    WorksAre(gr.nodes);
    ReachedNode(gr, reach, f);
    QueuesExist(gr.nodes);
    WiredNode(gr, f);
    if f.lastTick != s.ticks {
      var can := CanProcess(f, s.ticks);
      UpstreamVisited(gr, f, s.ticks);
      if can || force {
        ghost var all := Queues(gr.nodes);
        Schedule(f, s, gr);
        assert Wired(gr) && Queues(gr.nodes) == all;
        StatesAre(gr.nodes, s.ticks, deferred);
        DescentStarts(gr, reach, force, before, StateOf(gr.nodes, s.ticks, deferred), f);
        deferred', log := RunNexts(f, s, deferred, force, gr, reach, before, [f], works);
      } else {
        DescentDefers(gr, reach, before, f);
        deferred' := [f] + deferred;
        StatesAre(gr.nodes, s.ticks, deferred');
      }
    } else {
      DescentStays(gr, reach, force, before);
      VisitedIsSettled(gr, f, before);
    }
  }

  /** The loop over the outputs of a filter that has just run, which ends its descent. */
  method RunNexts(f: Filter, s: Ticker, deferred: seq<Filter>, force: bool, ghost gr: Graph, ghost reach: set<Filter>,
                  ghost before: State, ghost ran: seq<Filter>, ghost works: map<Filter, (nat, bool)>)
    returns (deferred': seq<Filter>, ghost log: seq<Filter>)
    requires Wired(gr) && ValidGraph(gr) && Closed(gr, reach) && f in reach && ran != []
    requires Descent(gr, reach, force, before, StateOf(gr.nodes, s.ticks, deferred), ran, gr.succ[f])
    requires Settled(gr, f, StateOf(gr.nodes, s.ticks, deferred)) && Worked(works, Works(gr.nodes), ran)
    modifies gr.nodes`lastTick, Queues(gr.nodes)`count, gr.nodes`worked, gr.nodes`waited
    ensures Descent(gr, reach, force, before, StateOf(gr.nodes, s.ticks, deferred'), log, {})
    ensures Worked(works, Works(gr.nodes), log)
    ensures Settled(gr, f, StateOf(gr.nodes, s.ticks, deferred'))
    ensures log != []
    ensures forall g :: g in gr.nodes ==> g.lastTick == s.ticks || g.lastTick == old(g.lastTick)
    ensures !force && old(Quiet(gr, s.ticks)) ==> Quiet(gr, s.ticks)
    decreases gr.nodes - Visited(gr.nodes, s.ticks), 1
  {
    hide *;
    deferred', log := deferred, ran;
    ghost var outputs, start := f.outputs, Visited(gr.nodes, s.ticks);
    ReachedNode(gr, reach, f);
    WiredNode(gr, f);
    AllPins(f);
    var i := 0;
    while i < |f.outputs|
      invariant 0 <= i <= |f.outputs| && f.outputs == outputs
      invariant Wired(gr) && Queues(gr.nodes) == old(Queues(gr.nodes))
      invariant log != [] && Worked(works, Works(gr.nodes), log)
      invariant Descent(gr, reach, force, before, StateOf(gr.nodes, s.ticks, deferred'), log, NextsFrom(f, i))
      invariant Settled(gr, f, StateOf(gr.nodes, s.ticks, deferred'))
      invariant start <= Visited(gr.nodes, s.ticks)
      invariant forall g :: g in gr.nodes ==> g.lastTick == s.ticks || g.lastTick == old(g.lastTick)
      invariant !force && old(Quiet(gr, s.ticks)) ==> Quiet(gr, s.ticks)
    {
      StatesAre(gr.nodes, s.ticks, deferred');
      WiredNode(gr, f);
      NextPin(f, i);
      var l := f.outputs[i];
      if l != null {
        ghost var middle, worked, more := StateOf(gr.nodes, s.ticks, deferred'), Works(gr.nodes), [];
        deferred', more := RunGraph(l.next, s, deferred', force, gr, reach);
        ghost var after := StateOf(gr.nodes, s.ticks, deferred');
        DescentOnlyAdds(gr, reach, force, middle, after, more, {}, f);
        DescentThen(gr, reach, force, before, middle, after, log, more, NextsFrom(f, i + 1), l.next);
        DescentOnce(gr, reach, force, before, after, log + more, NextsFrom(f, i + 1));
        WorkedThen(works, worked, Works(gr.nodes), log, more);
        log := log + more;
      }
      StatesAre(gr.nodes, s.ticks, deferred');
      i := i + 1;
    }
  }

  // ----- A tick -----

  lemma InList(list: seq<Filter>, s: set<Filter>, i: nat)
    requires Elements(list) <= s && i < |list|
    ensures list[i] in s
  {
    assert list[i] in Elements(list);
  }

  lemma NoneSettled(gr: Graph, list: seq<Filter>, s: State)
    requires ValidGraph(gr)
    ensures AllSettled(gr, list[..0], s)
  {
  }

  lemma DeferredIsForced(gr: Graph, reach: set<Filter>, force: bool, a: State, b: State, log: seq<Filter>)
    requires ValidGraph(gr) && Descent(gr, reach, force, a, b, log, {}) && a.deferred == [] && b.deferred != []
    ensures !force && Elements(b.deferred) <= reach
  {
  }

  method RunGraphs(s: Ticker, list: seq<Filter>, force: bool, ghost gr: Graph, ghost reach: set<Filter>)
    returns (ghost log: seq<Filter>, ghost k: nat)
    requires Wired(gr) && ValidGraph(gr) && Closed(gr, reach) && Elements(list) <= reach
    modifies gr.nodes`lastTick, Queues(gr.nodes)`count, gr.nodes`worked, gr.nodes`waited
    ensures Worked(old(Works(gr.nodes)), Works(gr.nodes), log)
    ensures Pass(gr, reach, list, force, old(Visited(gr.nodes, s.ticks)), Visited(gr.nodes, s.ticks), log, k)
    ensures forall g :: g in gr.nodes ==> g.lastTick == s.ticks || g.lastTick == old(g.lastTick)
    ensures (if force then log == [] else k == |log|) && old(Quiet(gr, s.ticks)) ==> Quiet(gr, s.ticks)
    decreases if force then 0 else 1
  {
    hide *;
    var deferred: seq<Filter> := [];
    log := [];
    ghost var before, works := StateOf(gr.nodes, s.ticks, deferred), Works(gr.nodes);
    StatesAre(gr.nodes, s.ticks, deferred);
    WorksAre(gr.nodes);
    DescentStays(gr, reach, force, before);
    NoneSettled(gr, list, before);
    QueuesExist(gr.nodes);
    var i := 0;
    while i < |list|
      invariant 0 <= i <= |list|
      invariant Wired(gr) && Queues(gr.nodes) == old(Queues(gr.nodes))
      invariant Descent(gr, reach, force, before, StateOf(gr.nodes, s.ticks, deferred), log, {})
      invariant AllSettled(gr, list[..i], StateOf(gr.nodes, s.ticks, deferred))
      invariant Worked(works, Works(gr.nodes), log)
      invariant forall g :: g in gr.nodes ==> g.lastTick == s.ticks || g.lastTick == old(g.lastTick)
      invariant (!force || log == []) && old(Quiet(gr, s.ticks)) ==> Quiet(gr, s.ticks)
    {
      ghost var middle, worked, more := StateOf(gr.nodes, s.ticks, deferred), Works(gr.nodes), [];
      InList(list, reach, i);
      deferred, more := RunGraph(list[i], s, deferred, force, gr, reach);
      DescentNext(gr, reach, force, list, i, before, middle, StateOf(gr.nodes, s.ticks, deferred), log, more);
      DescentOnce(gr, reach, force, before, StateOf(gr.nodes, s.ticks, deferred), log + more, {});
      WorkedThen(works, worked, Works(gr.nodes), log, more);
      log := log + more;
      i := i + 1;
    }
    assert list[..i] == list;
    k := |log|;
    StatesAre(gr.nodes, s.ticks, deferred);
    ghost var after := StateOf(gr.nodes, s.ticks, deferred);
    if deferred != [] {
      DeferredIsForced(gr, reach, force, before, after, log);
      ghost var worked, more, rest := Works(gr.nodes), [], 0;
      more, rest := RunGraphs(s, deferred, true, gr, reach);
      PassThenForced(gr, reach, list, before, after, log, Visited(gr.nodes, s.ticks), more, rest);
      PassOnce(gr, reach, list, force, before.visited, Visited(gr.nodes, s.ticks), log + more, |log|);
      WorkedThen(works, worked, Works(gr.nodes), log, more);
      log := log + more;
    } else {
      CompletePass(gr, reach, list, force, before, after, log);
    }
  }

  lemma FreshTick(gr: Graph, tick: nat)
    requires ValidGraph(gr) && (forall f :: f in gr.nodes ==> f.lastTick < tick)
    ensures Visited(gr.nodes, tick) == {}
    ensures AllEmpty(gr.nodes) ==> Quiet(gr, tick)
  {
  }

  /** When what ran is closed downstream, messages have nowhere to wait. */
  lemma NothingWaits(gr: Graph, tick: nat)
    requires Wired(gr) && ValidGraph(gr) && Closed(gr, Visited(gr.nodes, tick)) && Quiet(gr, tick)
    ensures AllEmpty(gr.nodes)
  {
    forall q | q in Queues(gr.nodes)
      ensures q.count == 0
    {
    }
  }

  lemma ListedElements(list: seq<Filter>)
    ensures forall f :: f in list <==> f in Elements(list)
  {
  }

  lemma SharesAre(a: map<Filter, (nat, bool)>, b: map<Filter, (nat, bool)>, log: seq<Filter>)
    requires Worked(a, b, log)
    ensures a.Keys == b.Keys
    ensures forall f :: f in b && f in log ==> b[f].0 == a[f].0 + if f.ninputs == 0 || b[f].1 then 1 else 0
    ensures forall f :: f in b && f !in log ==> b[f].0 == a[f].0
  {
  }

  /** One round of the ticker's thread: the filters of the log work once each if they have something to work on. */
  method Tick(s: Ticker, ghost gr: Graph) returns (ghost log: seq<Filter>, ghost k: nat)
    requires Wired(gr) && ValidGraph(gr) && Elements(s.executionList) <= gr.nodes
    requires forall f :: f in gr.nodes ==> f.lastTick <= s.ticks
    modifies s`ticks, gr.nodes`lastTick, Queues(gr.nodes)`count, gr.nodes`worked, gr.nodes`waited
    ensures Worked(old(Works(gr.nodes)), Works(gr.nodes), log)
    ensures forall f :: f in gr.nodes && f in log ==>
              f.worked == old(f.worked) + if f.ninputs == 0 || f.waited then 1 else 0
    ensures forall f :: f in gr.nodes && f !in log ==> f.worked == old(f.worked)
    ensures s.ticks == old(s.ticks) + 1 && forall f :: f in gr.nodes ==> f.lastTick <= s.ticks
    ensures Scheduled(gr, s.executionList, log, k)
    ensures forall f :: f in gr.nodes ==> (f in log <==> f.lastTick == s.ticks)
    ensures old(AllEmpty(gr.nodes)) && k == |log| ==> AllEmpty(gr.nodes)
  {
    hide *;
    StatesAre(gr.nodes, s.ticks + 1, []);
    FreshTick(gr, s.ticks + 1);
    s.ticks := s.ticks + 1;
    WorksAre(gr.nodes);
    ghost var works := Works(gr.nodes);
    log, k := RunGraphs(s, s.executionList, false, gr, Reached(gr, Elements(s.executionList)));
    StatesAre(gr.nodes, s.ticks, []);
    WorksAre(gr.nodes);
    SharesAre(works, Works(gr.nodes), log);
    PassIsSchedule(gr, s.executionList, Visited(gr.nodes, s.ticks), log, k);
    assert forall f :: f in log <==> f in Elements(log) by { ListedElements(log); }
    if k == |log| && Quiet(gr, s.ticks) {
      NothingWaits(gr, s.ticks);
    }
  }

  /** The ticker's thread for a number of rounds, over a graph without loops whose roots are all in the list. */
  method Run(s: Ticker, rounds: nat, ghost gr: Graph, ghost rank: map<Filter, nat>)
    returns (ghost logs: seq<seq<Filter>>)
    requires Wired(gr) && ValidGraph(gr) && Ranked(gr, rank)
    requires Roots(gr) <= Elements(s.executionList) <= gr.nodes
    requires AllEmpty(gr.nodes) && forall f :: f in gr.nodes ==> f.lastTick <= s.ticks
    modifies s`ticks, gr.nodes`lastTick, Queues(gr.nodes)`count, gr.nodes`worked, gr.nodes`waited
    ensures |logs| == rounds
    ensures forall f :: f in gr.nodes ==> old(f.worked) <= f.worked <= old(f.worked) + rounds
    ensures forall f :: f in gr.nodes && f.ninputs == 0 ==> f.worked == old(f.worked) + rounds
    ensures forall r :: 0 <= r < rounds ==>
            NoDuplicates(logs[r]) && Elements(logs[r]) == gr.nodes && Ordered(gr, {}, logs[r])
    ensures AllEmpty(gr.nodes)
  {
    hide *;
    logs := [];
    for round := 0 to rounds
      invariant |logs| == round
      invariant Wired(gr) && Queues(gr.nodes) == old(Queues(gr.nodes)) && AllEmpty(gr.nodes)
      invariant forall f :: f in gr.nodes ==> f.lastTick <= s.ticks
      invariant forall f :: f in gr.nodes ==> old(f.worked) <= f.worked <= old(f.worked) + round
      invariant forall f :: f in gr.nodes && f.ninputs == 0 ==> f.worked == old(f.worked) + round
      invariant forall r :: 0 <= r < |logs| ==>
                NoDuplicates(logs[r]) && Elements(logs[r]) == gr.nodes && Ordered(gr, {}, logs[r])
    {
      ghost var log, k;
      log, k := Tick(s, gr);
      AcyclicRunsInOrder(gr, rank, s.executionList, log, k);
      assert forall f :: f in gr.nodes ==> f in log by { ListedElements(log); }
      logs := logs + [log];
    }
  }
}
