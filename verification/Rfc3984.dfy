/** Packing NAL units into RTP packets, and unpacking them (rfc3984.c). */
module Rfc3984 {
  import opened Octets
  import opened Results
  import opened NalUnits

  // ----- What a frame's packets carry -----

  /** A NAL unit as it arrives: fragments lose the forbidden bit. */
  function Carried(nal: Payload, maxsz: int): Payload {
    if |nal| > maxsz then Cleared(nal) else nal
  }

  function AllCarried(nalus: seq<Payload>, maxsz: int): seq<Payload> {
    seq(|nalus|, i requires 0 <= i < |nalus| => Carried(nalus[i], maxsz))
  }

  /** A fragmented NAL unit replaces whatever was left unfinished before. */
  function Unfinished(partial: Option<seq<byte>>, nalus: seq<Payload>, maxsz: int): Option<seq<byte>> {
    if exists i :: 0 <= i < |nalus| && |nalus[i]| > maxsz then None else partial
  }

  /** The packetiser can carry a NAL unit: what is not fragmented must not look like an aggregate or a fragment. */
  predicate Carriable(nal: Payload, maxsz: int) {
    |nal| <= maxsz ==> TypeOf(nal[0]) != TYPE_STAP_A && TypeOf(nal[0]) != TYPE_FU_A
  }

  lemma AllCarriedGrows(nalus: seq<Payload>, more: seq<Payload>, maxsz: int)
    ensures AllCarried(nalus + more, maxsz) == AllCarried(nalus, maxsz) + AllCarried(more, maxsz)
  {
    hide Carried;
    var all, front, back := AllCarried(nalus + more, maxsz), AllCarried(nalus, maxsz), AllCarried(more, maxsz);
    assert forall i :: 0 <= i < |nalus| ==> all[i] == front[i];
    assert forall i :: 0 <= i < |more| ==> all[|nalus| + i] == back[i];
  }

  lemma UnfinishedGrows(partial: Option<seq<byte>>, nalus: seq<Payload>, more: seq<Payload>, maxsz: int)
    ensures Unfinished(partial, nalus + more, maxsz) == Unfinished(Unfinished(partial, nalus, maxsz), more, maxsz)
  {
    var all := nalus + more;
    assert forall i :: 0 <= i < |nalus| ==> all[i] == nalus[i];
    assert forall i :: 0 <= i < |more| ==> all[|nalus| + i] == more[i];
  }

  /** The NAL units arrive unchanged exactly when no fragmented one has the forbidden bit. */
  lemma CarriedUnchanged(nalus: seq<Payload>, maxsz: int)
    ensures AllCarried(nalus, maxsz) == nalus <==>
            forall i :: 0 <= i < |nalus| && |nalus[i]| > maxsz ==> ForbiddenBit(nalus[i][0]) == 0
  {
    hide Cleared, ForbiddenBit;
    forall i | 0 <= i < |nalus|
      ensures AllCarried(nalus, maxsz)[i] == nalus[i] <==> (|nalus[i]| > maxsz ==> ForbiddenBit(nalus[i][0]) == 0)
    {
      ClearedIsSame(nalus[i]);
    }
    if forall i :: 0 <= i < |nalus| ==> AllCarried(nalus, maxsz)[i] == nalus[i] {
      assert AllCarried(nalus, maxsz) == nalus;
    }
  }

  /** Packets that fit, of one frame, none of them the last. */
  ghost predicate Fitting(packets: seq<Packet>, ts: nat, maxsz: int) {
    && AllReceivable(packets)
    && forall k :: 0 <= k < |packets| ==> |packets[k].payload| <= maxsz && packets[k].timestamp == ts
  }

  ghost predicate Unmarked(packets: seq<Packet>) {
    forall k :: 0 <= k < |packets| ==> !packets[k].marker
  }

  /** The whole of a NAL unit in fragments: the first starts it and only the last ends it. */
  ghost predicate FragmentsOf(packets: seq<Packet>, nalu: Payload) {
    && |packets| >= 2
    && forall k :: 0 <= k < |packets| ==>
         var p := packets[k].payload;
         && |p| >= 2 && TypeOf(p[0]) == TYPE_FU_A && NriOf(p[0]) == NriOf(nalu[0]) && TypeOf(p[1]) == TypeOf(nalu[0])
         && IsStart(p[1]) == (k == 0) && IsEnd(p[1]) == (k == |packets| - 1)
  }

  lemma Joined(h: seq<byte>, nalu: seq<byte>, pos: nat, next: nat)
    requires 1 <= pos <= next <= |nalu|
    ensures (h + nalu[1..pos]) + nalu[pos..next] == h + nalu[1..next]
  {
    assert nalu[1..pos] + nalu[pos..next] == nalu[1..next];
  }

  /** Cutting a NAL unit that is too large for one packet. */
  method FragNaluAndSend(ts: nat, nalu: Payload, marker: bool, maxsize: int, ghost c: Context)
    returns (packets: seq<Packet>)
    requires 3 <= maxsize < |nalu|
    ensures |packets| >= 2 && FragmentsOf(packets, nalu) && Fitting(packets, ts, maxsize)
    ensures Unmarked(packets[..|packets| - 1]) && packets[|packets| - 1].marker == marker
    ensures FullFragments(packets, maxsize)
    ensures AbsorbAll(c, packets) == Context(c.queue + [Cleared(nalu)], None)
  {
    hide Absorb, TypeOf, NriOf, IsStart, IsEnd, Header, FuHeader, AbsorbAll;
    var payloadMaxSize := maxsize - 2;
    var kind, nri := TypeOf(nalu[0]), NriOf(nalu[0]);
    var start, pos := true, 0;
    packets := [];
    NothingAbsorbed(c);
    while |nalu| - pos > payloadMaxSize
      invariant 0 <= pos < |nalu| && (start <==> pos == 0) && (start <==> packets == [])
      invariant Fitting(packets, ts, maxsize) && Unmarked(packets) && Starting(packets, nalu)
      invariant forall k :: 0 <= k < |packets| ==> |packets[k].payload| == if k == 0 then maxsize - 1 else maxsize
      invariant AbsorbAll(c, packets) ==
                if start then c else Context(c.queue, Some([Header(nri, kind)] + nalu[1..pos]))
    {
      var from := if start then pos + 1 else pos;
      pos := pos + payloadMaxSize;
      var m := Packet(Fragment(nri, kind, start, false, nalu[from..pos]), ts, false);
      FragmentHeaders(nri, kind, start, false, nalu[from..pos]);
      AbsorbFragment(AbsorbAll(c, packets), m.payload, nri, kind, start, false, nalu[from..pos]);
      AbsorbOneMore(c, packets, m);
      if !start { Joined([Header(nri, kind)], nalu, from, pos); }
      packets := packets + [m];
      start := false;
    }
    var m := Packet(Fragment(nri, kind, false, true, nalu[pos..]), ts, marker);
    FragmentHeaders(nri, kind, false, true, nalu[pos..]);
    AbsorbFragment(AbsorbAll(c, packets), m.payload, nri, kind, false, true, nalu[pos..]);
    AbsorbOneMore(c, packets, m);
    Joined([Header(nri, kind)], nalu, pos, |nalu|);
    assert nalu[1..|nalu|] == nalu[1..] && nalu[pos..|nalu|] == nalu[pos..];
    packets := packets + [m];
  }

  /** When the packet that starts a fragmented NAL unit is lost, nothing of the unit is let out. */
  lemma LostStart(packets: seq<Packet>, nalu: Payload, q: seq<seq<byte>>)
    requires FragmentsOf(packets, nalu)
    ensures AllReceivable(packets[1..])
    ensures AbsorbAll(Context(q, None), packets[1..]) == Context(q, None)
    ensures forall k :: 1 <= k < |packets| && packets[k].marker ==>
              Receivable(packets[k].payload) && Receive(Context(q, None), packets[k]) == (Context([], None), q)
  {
    hide AbsorbAll, NriOf;
    NoStartNoUnit(q, packets[1..]);
    forall k | 1 <= k < |packets| && packets[k].marker
      ensures Receivable(packets[k].payload) && Receive(Context(q, None), packets[k]) == (Context([], None), q)
    {
      assert q + [] == q;
    }
  }

  lemma NothingAbsorbed(c: Context)
    ensures AbsorbAll(c, []) == c
  {
  }

  /** The fragments so far, of which none ends the NAL unit. */
  ghost predicate Starting(packets: seq<Packet>, nalu: Payload) {
    forall k :: 0 <= k < |packets| ==>
      var p := packets[k].payload;
      && |p| >= 2 && TypeOf(p[0]) == TYPE_FU_A && NriOf(p[0]) == NriOf(nalu[0]) && TypeOf(p[1]) == TypeOf(nalu[0])
      && IsStart(p[1]) == (k == 0) && !IsEnd(p[1])
  }

  // ----- Aggregation -----

  method PrependStapA(m: Payload) returns (hm: Payload)
    ensures hm == [Header(NriOf(m[0]), TYPE_STAP_A)] + SizeField(|m|) + m
  {
    hm := [Header(NriOf(m[0]), TYPE_STAP_A)] + SizeField(|m|) + m;
  }

  lemma GroupedPair(m: Payload)
    ensures [Header(NriOf(m[0]), TYPE_STAP_A)] + SizeField(|m|) + m == [Header(NriOf(m[0]), TYPE_STAP_A)] + Sized([m])
  {
    hide Header, SizeField;
    assert [m][..0] == [];
    assert Sized([m]) == [] + SizeField(|m|) + m;
  }

  lemma GroupedHeader(group: seq<Payload>)
    requires group != [] && TypeOf(group[0][0]) != TYPE_STAP_A
    ensures TypeOf(Grouped(group)[0]) == TYPE_STAP_A <==> |group| > 1
  {
    hide Header, NriOf, TypeOf, Sized;
    HeaderRoundTrip(NriOf(group[0][0]), TYPE_STAP_A);
  }

  /** One more NAL unit in the group, which becomes a STAP-A with the second one. */
  method ConcatNalus(m1: Payload, m2: Payload, ghost group: seq<Payload>) returns (m: Payload)
    requires group != [] && m1 == Grouped(group) && TypeOf(group[0][0]) != TYPE_STAP_A
    ensures m == Grouped(group + [m2])
  {
    hide Header, NriOf, TypeOf, SizeField, Sized;
    GroupedHeader(group);
    m := m1;
    if TypeOf(m[0]) != TYPE_STAP_A {
      m := PrependStapA(m);
      GroupedPair(m1);
      assert group == [m1];
    }
    ghost var h := [Header(NriOf(group[0][0]), TYPE_STAP_A)];
    assert m == h + Sized(group);
    SizedGrows(group, m2);
    assert h + (Sized(group) + SizeField(|m2|) + m2) == h + Sized(group) + SizeField(|m2|) + m2;
    m := m + SizeField(|m2|) + m2;
  }

  /** What a group weighs, alone or aggregated, is within its size as a STAP-A. */
  lemma GroupedSize(group: seq<Payload>)
    requires group != []
    ensures |Grouped(group)| <= StapSize(group)
    ensures |group| > 1 ==> |Grouped(group)| == StapSize(group)
    ensures forall i :: 0 <= i < |group| ==> |group[i]| + 3 <= StapSize(group)
  {
    SizedSize(group);
  }

  // ----- A frame's packets -----

  /** The NAL units that go out together, given those that already wait for company. */
  function Groups(group: seq<Payload>, nalus: seq<Payload>, maxsz: int): seq<seq<Payload>>
    decreases |nalus|
  {
    var waiting := if group == [] then [] else [group];
    if nalus == [] then waiting
    else
      var m, rest := nalus[0], nalus[1..];
      if group != [] && StapSize(group) + |m| < maxsz - 2 then Groups(group + [m], rest, maxsz)
      else if |m| < maxsz / 2 then waiting + Groups([m], rest, maxsz)
      else waiting + ([[m]] + Groups([], rest, maxsz))
  }

  ghost predicate AllObey(packets: seq<Packet>) {
    forall k :: 0 <= k < |packets| ==> Obeys(packets[k].payload)
  }

  ghost predicate AllFirstHighest(groups: seq<seq<Payload>>) {
    forall g :: 0 <= g < |groups| ==> FirstIsHighest(groups[g])
  }

  /** All but the last fragment are as large as they may be; the first leaves out the NAL unit's own header. */
  ghost predicate FullFragments(packets: seq<Packet>, maxsz: int) {
    forall k :: 0 <= k < |packets| - 1 ==> |packets[k].payload| == if k == 0 then maxsz - 1 else maxsz
  }

  /** What a group goes out as: fragments of a NAL unit that is too large, otherwise one packet. */
  ghost predicate Carries(packets: seq<Packet>, group: seq<Payload>, maxsz: int) {
    group != [] &&
    if |group| == 1 && |group[0]| > maxsz then FragmentsOf(packets, group[0]) && FullFragments(packets, maxsz)
    else |packets| == 1 && packets[0].payload == Grouped(group)
  }

  /** The packets of some groups, in order. */
  ghost predicate CarriesAll(packets: seq<Packet>, groups: seq<seq<Payload>>, maxsz: int)
    decreases |groups|
  {
    if groups == [] then packets == []
    else
      exists j :: 0 <= j <= |packets| && CarriesAll(packets[..j], groups[..|groups| - 1], maxsz)
                  && Carries(packets[j..], groups[|groups| - 1], maxsz)
  }

  lemma CarriesMore(packets: seq<Packet>, groups: seq<seq<Payload>>, more: seq<Packet>, group: seq<Payload>, maxsz: int)
    requires CarriesAll(packets, groups, maxsz) && Carries(more, group, maxsz)
    ensures CarriesAll(packets + more, groups + [group], maxsz)
  {
    hide Carries;
    var all, sent := packets + more, groups + [group];
    assert all[..|packets|] == packets && all[|packets|..] == more && sent[..|groups|] == groups;
  }

  /** So many groups have been sent, the rest of the frame is still to come, and the rule was kept if the groups
      allow it. */
  ghost predicate GroupsSent(packets: seq<Packet>, sent: seq<seq<Payload>>, group: seq<Payload>, naluq: seq<Payload>,
                             nalus: seq<Payload>, maxsz: int) {
    && Groups([], nalus, maxsz) == sent + Groups(group, naluq, maxsz) && CarriesAll(packets, sent, maxsz)
    && (AllObey(packets) <==> AllFirstHighest(sent))
  }

  lemma NoGroupSent(nalus: seq<Payload>, maxsz: int)
    ensures GroupsSent([], [], [], nalus, nalus, maxsz)
  {
    assert [] + Groups([], nalus, maxsz) == Groups([], nalus, maxsz);
  }

  lemma GroupJoined(packets: seq<Packet>, sent: seq<seq<Payload>>, group: seq<Payload>, naluq: seq<Payload>,
                    nalus: seq<Payload>, maxsz: int)
    requires GroupsSent(packets, sent, group, naluq, nalus, maxsz) && group != [] && naluq != []
    requires StapSize(group) + |naluq[0]| < maxsz - 2
    ensures GroupsSent(packets, sent, group + [naluq[0]], naluq[1..], nalus, maxsz)
  {
    hide StapSize, AllObey, AllFirstHighest, CarriesAll;
  }

  /** The waiting group goes out before a NAL unit that is too large for it, or at the end. */
  lemma GroupLeaves(packets: seq<Packet>, sent: seq<seq<Payload>>, group: seq<Payload>, naluq: seq<Payload>,
                    nalus: seq<Payload>, maxsz: int, p: Packet)
    requires GroupsSent(packets, sent, group, naluq, nalus, maxsz) && Sendable(group, maxsz) && maxsz < 0x10000
    requires naluq != [] ==> StapSize(group) + |naluq[0]| >= maxsz - 2
    requires p.payload == Grouped(group)
    ensures GroupsSent(packets + [p], sent + [group], [], naluq, nalus, maxsz)
  {
    hide StapSize, Obeys, FirstIsHighest, Grouped, TypeOf, CarriesAll;
    GroupedSize(group);
    CarriesMore(packets, sent, [p], group, maxsz);
    ObeysIffFirstIsHighest(group);
    assert AllObey([p]) <==> Obeys([p][0].payload);
    OneMoreObeys(packets, sent, [p], group);
    hide AllObey, AllFirstHighest;
    var rest := Groups([], naluq, maxsz);
    assert Groups(group, naluq, maxsz) == [group] + rest;
    assert sent + ([group] + rest) == (sent + [group]) + rest;
  }

  lemma OneMoreObeys(packets: seq<Packet>, sent: seq<seq<Payload>>, more: seq<Packet>, group: seq<Payload>)
    requires AllObey(packets) <==> AllFirstHighest(sent)
    requires AllObey(more) <==> FirstIsHighest(group)
    ensures AllObey(packets + more) <==> AllFirstHighest(sent + [group])
  {
    hide Obeys, FirstIsHighest;
    var all, groups := packets + more, sent + [group];
    assert forall k :: 0 <= k < |packets| ==> all[k] == packets[k];
    assert forall k :: 0 <= k < |more| ==> all[|packets| + k] == more[k];
    assert forall g :: 0 <= g < |sent| ==> groups[g] == sent[g];
    assert groups[|sent|] == group;
  }

  /** A small NAL unit starts to wait. */
  lemma GroupStarts(packets: seq<Packet>, sent: seq<seq<Payload>>, naluq: seq<Payload>, nalus: seq<Payload>, maxsz: int)
    requires GroupsSent(packets, sent, [], naluq, nalus, maxsz) && naluq != [] && |naluq[0]| < maxsz / 2
    ensures GroupsSent(packets, sent, [naluq[0]], naluq[1..], nalus, maxsz)
  {
    hide AllObey, AllFirstHighest, CarriesAll;
    assert [] + Groups([naluq[0]], naluq[1..], maxsz) == Groups([naluq[0]], naluq[1..], maxsz);
  }

  /** A large NAL unit goes out by itself, whole or in fragments: no aggregation packet is involved. */
  lemma LargeLeaves(packets: seq<Packet>, sent: seq<seq<Payload>>, naluq: seq<Payload>, nalus: seq<Payload>, maxsz: int,
                    more: seq<Packet>)
    requires GroupsSent(packets, sent, [], naluq, nalus, maxsz) && naluq != [] && |naluq[0]| >= maxsz / 2
    requires forall k :: 0 <= k < |more| ==> TypeOf(more[k].payload[0]) != TYPE_STAP_A
    requires Carries(more, [naluq[0]], maxsz)
    ensures GroupsSent(packets + more, sent + [[naluq[0]]], [], naluq[1..], nalus, maxsz)
  {
    hide TypeOf, NriOf, Carries, CarriesAll;
    CarriesMore(packets, sent, more, [naluq[0]], maxsz);
    var m, rest := naluq[0], Groups([], naluq[1..], maxsz);
    OneMoreObeys(packets, sent, more, [m]);
    hide AllObey, AllFirstHighest;
    assert Groups([], naluq, maxsz) == [] + ([[m]] + rest) == [[m]] + rest;
    assert sent + ([[m]] + rest) == (sent + [[m]]) + rest;
  }

  lemma FragmentsAreNotAggregated(packets: seq<Packet>, nalu: Payload, maxsz: int)
    requires FragmentsOf(packets, nalu) && FullFragments(packets, maxsz) && |nalu| > maxsz
    ensures forall k :: 0 <= k < |packets| ==> TypeOf(packets[k].payload[0]) != TYPE_STAP_A
    ensures Carries(packets, [nalu], maxsz)
  {
  }

  lemma SingleIsNotAggregated(nal: Payload, maxsz: int)
    requires Carriable(nal, maxsz) && |nal| <= maxsz
    ensures TypeOf(nal[0]) != TYPE_STAP_A && forall p: Packet :: p.payload == nal ==> Carries([p], [nal], maxsz)
  {
  }

  lemma AllGroupsSent(packets: seq<Packet>, sent: seq<seq<Payload>>, nalus: seq<Payload>, maxsz: int)
    requires GroupsSent(packets, sent, [], [], nalus, maxsz)
    ensures CarriesAll(packets, Groups([], nalus, maxsz), maxsz)
    ensures AllObey(packets) <==> AllFirstHighest(Groups([], nalus, maxsz))
  {
    assert sent + [] == sent;
  }

  ghost predicate NeverRises(nalus: seq<Payload>) {
    forall i, j :: 0 <= i < j < |nalus| ==> NriOf(nalus[j][0]) <= NriOf(nalus[i][0])
  }

  /** What waits is led by a NAL unit that nothing to come exceeds. */
  ghost predicate Leads(group: seq<Payload>, nalus: seq<Payload>) {
    group == [] || (FirstIsHighest(group) && forall i :: 0 <= i < |nalus| ==> NriOf(nalus[i][0]) <= NriOf(group[0][0]))
  }

  lemma LeadsOn(group: seq<Payload>, nalus: seq<Payload>)
    requires NeverRises(nalus) && Leads(group, nalus) && nalus != []
    ensures NeverRises(nalus[1..]) && Leads([nalus[0]], nalus[1..]) && Leads([], nalus[1..])
    ensures group != [] ==> Leads(group + [nalus[0]], nalus[1..])
    ensures FirstIsHighest([nalus[0]])
  {
    hide NriOf;
    assert forall i :: 0 <= i < |nalus| - 1 ==> nalus[1..][i] == nalus[i + 1];
  }

  lemma HighestConcatenated(groups: seq<seq<Payload>>, more: seq<seq<Payload>>)
    requires AllFirstHighest(groups) && AllFirstHighest(more)
    ensures AllFirstHighest(groups + more)
  {
    hide FirstIsHighest;
  }

  lemma OneHighest(group: seq<Payload>)
    requires FirstIsHighest(group)
    ensures AllFirstHighest([group])
  {
    hide FirstIsHighest;
  }

  lemma GroupsStep(group: seq<Payload>, nalus: seq<Payload>, maxsz: int)
    requires nalus != []
    ensures var m, rest := nalus[0], nalus[1..];
            var waiting := if group == [] then [] else [group];
            if group != [] && StapSize(group) + |m| < maxsz - 2 then
              Groups(group, nalus, maxsz) == Groups(group + [m], rest, maxsz)
            else if |m| < maxsz / 2 then Groups(group, nalus, maxsz) == waiting + Groups([m], rest, maxsz)
            else Groups(group, nalus, maxsz) == waiting + ([[m]] + Groups([], rest, maxsz))
  {
    hide StapSize;
  }

  // ----- Which NAL units go out together -----

  /** The NAL units of some groups in order. */
  ghost function Flat(groups: seq<seq<Payload>>): seq<Payload> {
    if groups == [] then [] else groups[0] + Flat(groups[1..])
  }

  /**
   * Aggregation takes as much as fits and no more: a group of several started with a NAL unit below half of the
   * packet size and is a STAP-A below that size, and what comes after such a start would not have fitted any more.
   */
  ghost predicate Greedy(groups: seq<seq<Payload>>, maxsz: int) {
    && (forall g :: 0 <= g < |groups| ==> groups[g] != [])
    && (forall g :: 0 <= g < |groups| && |groups[g]| > 1 ==>
          |groups[g][0]| < maxsz / 2 && StapSize(groups[g]) < maxsz)
    && (forall g :: 0 <= g < |groups| - 1 && |groups[g][0]| < maxsz / 2 ==>
          StapSize(groups[g]) + 2 + |groups[g + 1][0]| >= maxsz)
  }

  /** Some NAL units in groups. */
  ghost predicate Grouping(groups: seq<seq<Payload>>, nalus: seq<Payload>, maxsz: int) {
    && Greedy(groups, maxsz) && Flat(groups) == nalus
    && (groups != [] ==> nalus != [] && groups[0] != [] && groups[0][0] == nalus[0])
  }

  lemma GroupingPrepend(group: seq<Payload>, groups: seq<seq<Payload>>, nalus: seq<Payload>, maxsz: int)
    requires Grouping(groups, nalus, maxsz) && group != []
    requires |group| > 1 ==> |group[0]| < maxsz / 2 && StapSize(group) < maxsz
    requires nalus != [] && |group[0]| < maxsz / 2 ==> StapSize(group) + 2 + |nalus[0]| >= maxsz
    ensures Grouping([group] + groups, group + nalus, maxsz)
  {
    hide StapSize, Flat;
    GreedyPrepend(group, groups, maxsz);
    hide Greedy;
    assert ([group] + groups)[0] == group && (group + nalus)[0] == group[0];
  }

  lemma GreedyPrepend(group: seq<Payload>, groups: seq<seq<Payload>>, maxsz: int)
    requires Greedy(groups, maxsz) && group != []
    requires |group| > 1 ==> |group[0]| < maxsz / 2 && StapSize(group) < maxsz
    requires groups != [] && |group[0]| < maxsz / 2 ==> StapSize(group) + 2 + |groups[0][0]| >= maxsz
    ensures Greedy([group] + groups, maxsz)
    ensures Flat([group] + groups) == group + Flat(groups)
  {
    hide StapSize;
    var all := [group] + groups;
    assert all[1..] == groups;
    forall g | 0 <= g < |all| - 1 && |all[g][0]| < maxsz / 2
      ensures StapSize(all[g]) + 2 + |all[g + 1][0]| >= maxsz
    {
      if g > 0 {
        assert all[g] == groups[g - 1] && all[g + 1] == groups[g];
      }
    }
  }

  lemma NoMoreGroups(group: seq<Payload>, maxsz: int)
    requires |group| > 1 ==> |group[0]| < maxsz / 2 && StapSize(group) < maxsz
    ensures Groups(group, [], maxsz) == if group == [] then [] else [group]
    ensures Grouping(Groups(group, [], maxsz), group, maxsz)
  {
    hide StapSize;
    if group != [] {
      GroupingPrepend(group, [], [], maxsz);
      assert [group] + [] == [group] && group + [] == group;
    }
  }

  /** The groups are the frame's NAL units in order, cut greedily. */
  lemma {:induction false} GroupsAreGreedy(group: seq<Payload>, nalus: seq<Payload>, maxsz: int)
    requires group != [] ==> |group[0]| < maxsz / 2
    requires |group| > 1 ==> StapSize(group) < maxsz
    ensures Grouping(Groups(group, nalus, maxsz), group + nalus, maxsz)
    decreases |nalus|
  {
    hide *;
    if nalus == [] {
      NoMoreGroups(group, maxsz);
      assert group + nalus == group;
    } else {
      var m, rest := nalus[0], nalus[1..];
      GroupsStep(group, nalus, maxsz);
      if group != [] && StapSize(group) + |m| < maxsz - 2 {
        SizedGrows(group, m);
        GroupsAreGreedy(group + [m], rest, maxsz);
        assert group + [m] + rest == group + nalus;
      } else {
        var more := if |m| < maxsz / 2 then Groups([m], rest, maxsz) else [[m]] + Groups([], rest, maxsz);
        assert [m] + rest == nalus && [] + rest == rest;
        if |m| < maxsz / 2 {
          GroupsAreGreedy([m], rest, maxsz);
        } else {
          GroupsAreGreedy([], rest, maxsz);
          GroupingPrepend([m], Groups([], rest, maxsz), rest, maxsz);
        }
        assert Grouping(more, nalus, maxsz);
        if group != [] {
          GroupingPrepend(group, more, nalus, maxsz);
        } else {
          assert [] + more == more && [] + nalus == nalus;
        }
      }
    }
  }

  /** Frames whose importance never rises are sent by the rule, whatever the packet size. */
  lemma {:induction false} FallingImportanceObeys(group: seq<Payload>, nalus: seq<Payload>, maxsz: int)
    requires NeverRises(nalus) && Leads(group, nalus)
    ensures AllFirstHighest(Groups(group, nalus, maxsz))
    decreases |nalus|
  {
    var waiting := if group == [] then [] else [group];
    if group != [] {
      OneHighest(group);
    }
    assert AllFirstHighest(waiting) && (nalus == [] ==> Groups(group, nalus, maxsz) == waiting);
    hide *;
    if nalus != [] {
      var m, rest := nalus[0], nalus[1..];
      GroupsStep(group, nalus, maxsz);
      LeadsOn(group, nalus);
      if group != [] && StapSize(group) + |m| < maxsz - 2 {
        FallingImportanceObeys(group + [m], rest, maxsz);
      } else if |m| < maxsz / 2 {
        FallingImportanceObeys([m], rest, maxsz);
        HighestConcatenated(waiting, Groups([m], rest, maxsz));
      } else {
        FallingImportanceObeys([], rest, maxsz);
        OneHighest([m]);
        HighestConcatenated([[m]], Groups([], rest, maxsz));
        HighestConcatenated(waiting, [[m]] + Groups([], rest, maxsz));
      }
    }
  }

  /** A frame that is not: an important NAL unit joins one of no importance in any packet with room for both. */
  lemma ImportantFrameDisobeys(maxsz: int)
    requires maxsz >= 8
    ensures !AllFirstHighest(Groups([], [[Header(0, 1)], [Header(3, 5)]], maxsz))
  {
    hide Header, NriOf, FirstIsHighest;
    var m: Payload, n: Payload := [Header(0, 1)], [Header(3, 5)];
    var nalus: seq<Payload> := [m, n];
    assert nalus[1..] == [n] && nalus[1..][1..] == [] && [m] + [n] == nalus;
    SizedGrows([], m);
    assert [] + [m] == [m];
    GroupsStep([], nalus, maxsz);
    GroupsStep([m], [n], maxsz);
    assert Groups(nalus, [], maxsz) == [nalus];
    assert Groups([], nalus, maxsz)[0] == nalus;
    ImportanceIsLost();
  }

  // ----- Packing -----

  /** Some NAL units have been sent: their packets fit, and a receiver that takes them gets those NAL units. */
  ghost predicate Sent(packets: seq<Packet>, done: seq<Payload>, c: Context, ts: nat, maxsz: int) {
    && Fitting(packets, ts, maxsz)
    && AbsorbAll(c, packets) == Context(c.queue + AllCarried(done, maxsz), Unfinished(c.partial, done, maxsz))
  }

  /** A group that may go out as one packet. */
  ghost predicate Sendable(group: seq<Payload>, maxsz: int) {
    && group != [] && StapSize(group) <= maxsz
    && forall i :: 0 <= i < |group| ==> Carriable(group[i], maxsz)
  }

  lemma SendableGrows(group: seq<Payload>, m: Payload, maxsz: int)
    requires Sendable(group, maxsz) && StapSize(group) + 2 + |m| <= maxsz && Carriable(m, maxsz)
    ensures Sendable(group + [m], maxsz)
  {
    hide StapSize, Carriable;
    SizedGrows(group, m);
  }

  lemma SendableStarts(m: Payload, maxsz: int)
    requires |m| + 3 <= maxsz && Carriable(m, maxsz)
    ensures Sendable([m], maxsz) && StapSize([m]) == |m| + 3 && Grouped([m]) == m
  {
    assert [m][..0] == [];
  }

  lemma SendableType(group: seq<Payload>, maxsz: int)
    requires Sendable(group, maxsz)
    ensures group != [] && TypeOf(group[0][0]) != TYPE_STAP_A
  {
    hide TypeOf, StapSize, Grouped;
    GroupedSize(group);
  }

  lemma NothingSent(c: Context, ts: nat, maxsz: int)
    ensures Sent([], [], c, ts, maxsz)
  {
    assert c.queue + [] == c.queue;
  }

  lemma CarriedWhole(group: seq<Payload>, maxsz: int)
    requires forall i :: 0 <= i < |group| ==> |group[i]| <= maxsz
    ensures AllCarried(group, maxsz) == group
    ensures forall partial :: Unfinished(partial, group, maxsz) == partial
  {
  }

  /** A packet that adds some NAL units to the queue, whatever the receiver had. */
  lemma SentMore(packets: seq<Packet>, done: seq<Payload>, c: Context, ts: nat, maxsz: int, more: seq<Packet>,
      nalus: seq<Payload>)
    requires Sent(packets, done, c, ts, maxsz) && Fitting(more, ts, maxsz)
    requires var a := AbsorbAll(c, packets);
             AbsorbAll(a, more) == Context(a.queue + AllCarried(nalus, maxsz), Unfinished(a.partial, nalus, maxsz))
    ensures Sent(packets + more, done + nalus, c, ts, maxsz)
  {
    hide AbsorbAll, AllCarried, Unfinished, Receivable;
    AbsorbConcatenated(c, packets, more);
    AllCarriedGrows(done, nalus, maxsz);
    UnfinishedGrows(c.partial, done, nalus, maxsz);
  }

  lemma AbsorbOne(c: Context, p: Packet)
    requires Receivable(p.payload)
    ensures AllReceivable([p]) && AbsorbAll(c, [p]) == Absorb(c, p.payload)
  {
    NothingAbsorbed(c);
    AbsorbOneMore(c, [], p);
    assert [] + [p] == [p];
  }

  ghost function SentContext(packets: seq<Packet>, done: seq<Payload>, c: Context, ts: nat, maxsz: int): Context
    requires Sent(packets, done, c, ts, maxsz)
  {
    AbsorbAll(c, packets)
  }

  /** A group that goes out arrives whole. */
  lemma SentGroup(packets: seq<Packet>, done: seq<Payload>, c: Context, ts: nat, maxsz: int, group: seq<Payload>,
      p: Packet)
    requires Sent(packets, done, c, ts, maxsz) && Sendable(group, maxsz) && maxsz < 0x10000
    requires p.payload == Grouped(group) && p.timestamp == ts
    ensures Sent(packets + [p], done + group, c, ts, maxsz)
  {
    hide Sent, AbsorbAll, AllCarried, Unfinished, Receivable, Grouped, StapSize, TypeOf, Absorb;
    GroupedSize(group);
    AbsorbGrouped(SentContext(packets, done, c, ts, maxsz), group);
    AbsorbOne(SentContext(packets, done, c, ts, maxsz), p);
    CarriedWhole(group, maxsz);
    SentMore(packets, done, c, ts, maxsz, [p], group);
  }

  /** A NAL unit that fits goes out alone. */
  lemma SentSingle(packets: seq<Packet>, done: seq<Payload>, c: Context, ts: nat, maxsz: int, nal: Payload, p: Packet)
    requires Sent(packets, done, c, ts, maxsz) && |nal| <= maxsz && Carriable(nal, maxsz)
    requires p.payload == nal && p.timestamp == ts
    ensures Sent(packets + [p], done + [nal], c, ts, maxsz)
  {
    hide Sent, AbsorbAll, AllCarried, Unfinished, Receivable, TypeOf, Absorb;
    AbsorbSingle(SentContext(packets, done, c, ts, maxsz), nal);
    AbsorbOne(SentContext(packets, done, c, ts, maxsz), p);
    CarriedWhole([nal], maxsz);
    SentMore(packets, done, c, ts, maxsz, [p], [nal]);
  }

  lemma SentFragments(packets: seq<Packet>, done: seq<Payload>, c: Context, ts: nat, maxsz: int, nal: Payload,
      more: seq<Packet>)
    requires Sent(packets, done, c, ts, maxsz) && |nal| > maxsz && Fitting(more, ts, maxsz)
    requires var a := SentContext(packets, done, c, ts, maxsz);
             AbsorbAll(a, more) == Context(a.queue + [Cleared(nal)], None)
    ensures Sent(packets + more, done + [nal], c, ts, maxsz)
  {
    assert AllCarried([nal], maxsz) == [Cleared(nal)];
    assert [nal][0] == nal;
    hide *;
    SentMore(packets, done, c, ts, maxsz, more, [nal]);
  }

  /** The packets of a frame so far, of which none is the frame's last unless nothing is left to send. */
  ghost predicate MarkedSoFar(packets: seq<Packet>, finished: bool) {
    if finished then forall k :: 0 <= k < |packets| ==> (packets[k].marker <==> k == |packets| - 1)
    else Unmarked(packets)
  }

  lemma NoneMarked(finished: bool)
    ensures MarkedSoFar([], finished)
  {
  }

  lemma MarkOne(packets: seq<Packet>, p: Packet)
    requires MarkedSoFar(packets, false)
    ensures MarkedSoFar(packets + [p], p.marker)
  {
  }

  lemma MarkMore(packets: seq<Packet>, more: seq<Packet>)
    requires MarkedSoFar(packets, false) && more != [] && Unmarked(more[..|more| - 1])
    ensures MarkedSoFar(packets + more, more[|more| - 1].marker)
  {
    var all, init := packets + more, more[..|more| - 1];
    assert forall k :: 0 <= k < |init| ==> !init[k].marker && more[k] == init[k];
    assert forall k :: |packets| <= k < |all| ==> all[k] == more[k - |packets|];
  }

  /** The packets of a whole frame, and what any receiver gets from them. */
  ghost predicate FrameSent(packets: seq<Packet>, nalus: seq<Payload>, c: Context, ts: nat, maxsz: int) {
    && Fitting(packets, ts, maxsz) && (packets == [] <==> nalus == [])
    && (forall k :: 0 <= k < |packets| ==> (packets[k].marker <==> k == |packets| - 1))
    && ReceiveAll(c, packets) == if nalus == [] then (c, []) else
                                 (Context([], Unfinished(c.partial, nalus, maxsz)), c.queue + AllCarried(nalus, maxsz))
  }

  lemma SentIsFrame(packets: seq<Packet>, nalus: seq<Payload>, c: Context, ts: nat, maxsz: int)
    requires Sent(packets, nalus, c, ts, maxsz) && MarkedSoFar(packets, true) && (packets == [] <==> nalus == [])
    ensures FrameSent(packets, nalus, c, ts, maxsz)
  {
    if packets != [] {
      LastLetsAllOut(c, packets);
    }
  }

  /** A frame in the middle of packing: what was sent, what waits, and what is still queued. */
  ghost predicate Parts(nalus: seq<Payload>, done: seq<Payload>, group: seq<Payload>, naluq: seq<Payload>) {
    nalus == done + group + naluq
  }

  /** Where the next NAL unit may go. */
  lemma NextPart(nalus: seq<Payload>, done: seq<Payload>, group: seq<Payload>, naluq: seq<Payload>)
    requires Parts(nalus, done, group, naluq) && naluq != []
    ensures var m, rest := naluq[0], naluq[1..];
            && (exists i :: 0 <= i < |nalus| && nalus[i] == m)
            && Parts(nalus, done, group + [m], rest) && Parts(nalus, done + group, [m], rest)
            && Parts(nalus, done + group + [m], [], rest) 
            && (group == [] ==> Parts(nalus, done, [m], rest) && Parts(nalus, done + [m], [], rest))
  {
    assert nalus[|done + group|] == naluq[0];
    assert group == [] ==> done + group == done;
  }

  lemma PartsEnd(nalus: seq<Payload>, done: seq<Payload>, group: seq<Payload>)
    ensures Parts(nalus, done, group, []) ==> done + group == nalus
    ensures Parts(nalus, [], [], nalus)
  {
  }

  class Rfc3984Context {
    var q: seq<seq<byte>>
    var m: Option<seq<byte>>
    var maxsz: int

    constructor (maxsz: int)
      ensures q == [] && m == None && this.maxsz == maxsz
    {
      q, m, this.maxsz := [], None, maxsz;
    }

    function State(): Context
      reads this
    {
      Context(q, m)
    }

    /** Packing a frame's NAL units, so that any receiver gets exactly those. */
    method Pack(nalus: seq<Payload>, ts: nat, ghost c: Context) returns (packets: seq<Packet>)
      requires 3 <= maxsz < 0x10000 && forall i :: 0 <= i < |nalus| ==> Carriable(nalus[i], maxsz)
      ensures FrameSent(packets, nalus, c, ts, maxsz)
      ensures CarriesAll(packets, Groups([], nalus, maxsz), maxsz)
      ensures AllObey(packets) <==> AllFirstHighest(Groups([], nalus, maxsz))
    {
      hide *;
      var prevm: Option<Payload>, prevsz := None, 0;
      var naluq := nalus;
      ghost var done, group, sent := [], [], [];
      packets := [];
      NothingSent(c, ts, maxsz);
      NoGroupSent(nalus, maxsz);
      PartsEnd(nalus, [], []);
      NoneMarked(naluq == []);
      while naluq != []
        invariant Parts(nalus, done, group, naluq)
        invariant if prevm.None? then group == [] && prevsz == 0
                  else
                    group != [] && Sendable(group, maxsz) && prevm.value == Grouped(group) && prevsz == StapSize(group)
        invariant Sent(packets, done, c, ts, maxsz)
        invariant packets == [] <==> done == []
        invariant MarkedSoFar(packets, naluq == [] && prevm.None?)
        invariant GroupsSent(packets, sent, group, naluq, nalus, maxsz)
      {
        ghost var naluq0 := naluq;
        var m := naluq[0];
        NextPart(nalus, done, group, naluq);
        naluq := naluq[1..];
        var end, sz := naluq == [], |m|;
        if prevm.Some? {
          if prevsz + sz < maxsz - 2 {
            SendableType(group, maxsz);
            SendableGrows(group, m, maxsz);
            SizedGrows(group, m);
            GroupJoined(packets, sent, group, naluq0, nalus, maxsz);
            var joined := ConcatNalus(prevm.value, m, group);
            prevm, prevsz, group := Some(joined), prevsz + sz + 2, group + [m];
            continue;
          } else {
            var p := Packet(prevm.value, ts, false);
            SentGroup(packets, done, c, ts, maxsz, group, p);
            GroupLeaves(packets, sent, group, naluq0, nalus, maxsz, p);
            MarkOne(packets, p);
            packets, prevm, prevsz, done, sent, group := packets + [p], None, 0, done + group, sent + [group], [];
          }
        }
        if sz < maxsz / 2 {
          SendableStarts(m, maxsz);
          GroupStarts(packets, sent, naluq0, nalus, maxsz);
          prevm, prevsz, group := Some(m), sz + 3, [m];
        } else if sz > maxsz {
          var more := FragNaluAndSend(ts, m, end, maxsz, SentContext(packets, done, c, ts, maxsz));
          SentFragments(packets, done, c, ts, maxsz, m, more);
          MarkMore(packets, more);
          FragmentsAreNotAggregated(more, m, maxsz);
          LargeLeaves(packets, sent, naluq0, nalus, maxsz, more);
          packets, done, sent := packets + more, done + [m], sent + [[m]];
        } else {
          SentSingle(packets, done, c, ts, maxsz, m, Packet(m, ts, end));
          MarkOne(packets, Packet(m, ts, end));
          SingleIsNotAggregated(m, maxsz);
          LargeLeaves(packets, sent, naluq0, nalus, maxsz, [Packet(m, ts, end)]);
          packets, done, sent := packets + [Packet(m, ts, end)], done + [m], sent + [[m]];
        }
      }
      PartsEnd(nalus, done, group);
      if prevm.Some? {
        SentGroup(packets, done, c, ts, maxsz, group, Packet(prevm.value, ts, true));
        MarkOne(packets, Packet(prevm.value, ts, true));
        GroupLeaves(packets, sent, group, naluq, nalus, maxsz, Packet(prevm.value, ts, true));
        packets, done, sent, group := packets + [Packet(prevm.value, ts, true)], done + group, sent + [group], [];
      }
      AllGroupsSent(packets, sent, nalus, maxsz);
      assert done == nalus;
      SentIsFrame(packets, nalus, c, ts, maxsz);
    }
  
    method AggregateFua(im: Payload) returns (om: Option<seq<byte>>)
      requires |im| >= 2
      modifies this`m
      ensures var (partial, whole) := Aggregate(old(m), im);
              m == partial && whole == if om.Some? then [om.value] else []
      ensures old(m) == None && im[1] as int < 128 ==> m == None && om == None
    {
      hide Header, NriOf, TypeOf, IsEnd;
      om := None;
      var fuHeader := im[1];
      var kind := TypeOf(fuHeader);
      var start, end := IsStart(fuHeader), IsEnd(fuHeader);
      if start {
        var nri := NriOf(im[0]);
        if m.Some? {
          m := None;
        }
        m := Some([Header(nri, kind)] + im[2..]);
      } else {
        if m.Some? {
          m := Some(m.value + im[2..]);
        }
      }
      if end && m.Some? {
        om := m;
        m := None;
      }
    }

    lemma LostStartIsDropped(im: Packet)
      requires Receivable(im.payload)
      ensures m == None && im.payload[0] as int % 32 == 28 && im.payload[1] as int < 128 ==>
                Receive(State(), im) == if im.marker then (Context([], None), q) else (Context(q, None), [])
    {
      assert q + [] == q;
    }

    lemma SplitNext(queue: seq<seq<byte>>, payload: seq<byte>, p: nat, next: nat)
      requires p + 2 <= next <= |payload| && next == p + 2 + Word(payload[p], payload[p + 1])
      ensures queue + Split(payload, p) == (queue + [payload[p + 2..next]]) + Split(payload, next)
    {
      hide Word;
    }

    /** The NAL units of a STAP-A. A size field cut short reads one byte past the packet, so that byte is arbitrary. */
    method UnpackStapA(payload: Payload)
      modifies this`q
      ensures q == old(q) + Split(payload, 1)
    {
      hide Split, Word;
      var p := 1;
      while p < |payload|
        invariant 1 <= p <= |payload|
        invariant q + Split(payload, p) == old(q) + Split(payload, 1)
      {
        var low: byte := *;
        if p + 1 < |payload| {
          low := payload[p + 1];
        }
        var start, sz := p + 2, Word(payload[p], low);
        if start + sz > |payload| {
          SplitStops(payload, p);
          assert q + [] == q;
          return;
        }
        SplitNext(q, payload, p, start + sz);
        var nal := payload[start..start + sz];
        p := start + sz;
        q := q + [nal];
      }
      SplitStops(payload, p);
      assert q + [] == q;
    }

    lemma SplitStops(payload: seq<byte>, p: nat)
      requires p + 1 >= |payload| || p + 2 + Word(payload[p], payload[p + 1]) > |payload|
      ensures Split(payload, p) == []
    {
      hide Word;
    }

    method Unpack(im: Packet) returns (out: seq<seq<byte>>)
      requires Receivable(im.payload)
      modifies this`q, this`m
      ensures (State(), out) == Receive(old(State()), im)
      ensures old(m) == None && im.payload[0] as int % 32 == 28 && im.payload[1] as int < 128 ==>
                m == None && (out, q) == if im.marker then (old(q), []) else ([], old(q))
    {
      LostStartIsDropped(im);
      hide TypeOf, Split, Aggregate;
      out := [];
      var payload := im.payload;
      if TypeOf(payload[0]) == TYPE_STAP_A {
        UnpackStapA(payload);
      } else if TypeOf(payload[0]) == TYPE_FU_A {
        var o := AggregateFua(payload);
        if o.Some? {
          q := q + [o.value];
        } else {
          assert q + [] == q;
        }
      } else {
        q := q + [payload];
      }
      assert Context(q, m) == Absorb(old(State()), payload);
      hide Absorb;
      if im.marker {
        out := LetOut();
      }
    }

    /** Everything that waits. */
    method LetOut() returns (out: seq<seq<byte>>)
      modifies this`q
      ensures out == old(q) && q == []
    {
      out := [];
      while q != []
        invariant out + q == old(q)
      {
        out, q := out + [q[0]], q[1..];
      }
    }
  }

  // ----- Sender to receiver -----

  lemma ReceiveOneMore(c: Context, packets: seq<Packet>, k: nat)
    requires AllReceivable(packets) && k < |packets|
    ensures var (c1, out) := ReceiveAll(c, packets[..k]); var (c2, more) := Receive(c1, packets[k]);
            ReceiveAll(c, packets[..k + 1]) == (c2, out + more)
  {
    assert packets[..k + 1][..k] == packets[..k];
  }

  method UnpackAll(receiver: Rfc3984Context, packets: seq<Packet>) returns (out: seq<seq<byte>>)
    requires AllReceivable(packets)
    modifies receiver`q, receiver`m
    ensures (receiver.State(), out) == ReceiveAll(old(receiver.State()), packets)
  {
    hide Receive, Receivable;
    out := [];
    for k := 0 to |packets|
      invariant (receiver.State(), out) == ReceiveAll(old(receiver.State()), packets[..k])
    {
      ReceiveOneMore(old(receiver.State()), packets, k);
      var more := receiver.Unpack(packets[k]);
      out := out + more;
    }
    assert packets[..|packets|] == packets;
  }

  /** Frames sent one after another come out one by one, unchanged up to the forbidden bit of what was fragmented. */
  method SendFrames(sender: Rfc3984Context, receiver: Rfc3984Context, frames: seq<seq<Payload>>, ts: nat)
    returns (out: seq<seq<seq<byte>>>)
    requires sender != receiver && 3 <= sender.maxsz < 0x10000 && receiver.q == []
    requires forall f, i :: 0 <= f < |frames| && 0 <= i < |frames[f]| ==> Carriable(frames[f][i], sender.maxsz)
    modifies receiver`q, receiver`m
    ensures |out| == |frames| && receiver.q == []
    ensures forall f :: 0 <= f < |frames| ==> out[f] == AllCarried(frames[f], sender.maxsz)
  {
    hide ReceiveAll, Carriable, CarriesAll, Groups, AllObey, AllFirstHighest;
    out := [];
    for f := 0 to |frames|
      invariant |out| == f && receiver.q == []
      invariant forall g :: 0 <= g < f ==> out[g] == AllCarried(frames[g], sender.maxsz)
    {
      var packets := sender.Pack(frames[f], ts, receiver.State());
      var nalus := UnpackAll(receiver, packets);
      out := out + [nalus];
    }
  }
}
