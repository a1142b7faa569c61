/** NAL units and RTP payloads as byte strings, and what a receiver makes of them (rfc3984.c). */
module NalUnits {
  import opened Octets
  import opened Results

  /** What goes into one RTP packet; its first byte is a NAL header. */
  type Payload = s: seq<byte> | |s| > 0 witness [0]

  const TYPE_STAP_A := 24
  const TYPE_FU_A := 28

  // ----- NAL headers -----

  function Header(nri: nat, kind: nat): byte {
    nri % 4 * 32 + kind % 32
  }

  function TypeOf(h: byte): (kind: nat)
    ensures kind < 32
  {
    h % 32
  }

  function NriOf(h: byte): (nri: nat)
    ensures nri < 4
  {
    h / 32 % 4
  }

  /** The forbidden bit, which no header that the packetiser writes has. */
  function ForbiddenBit(h: byte): nat {
    h / 128
  }

  lemma HeaderRoundTrip(nri: nat, kind: nat)
    requires nri < 4 && kind < 32
    ensures NriOf(Header(nri, kind)) == nri && TypeOf(Header(nri, kind)) == kind
  {
    assert nri % 4 == nri && kind % 32 == kind;
    assert Header(nri, kind) / 32 == nri;
  }

  function FuHeader(start: bool, end: bool, kind: nat): byte
    requires kind < 32
  {
    (if start then 128 else 0) + (if end then 64 else 0) + kind
  }

  function IsStart(h: byte): bool {
    h / 128 == 1
  }

  function IsEnd(h: byte): bool {
    h / 64 % 2 == 1
  }

  lemma FuHeaderRoundTrip(start: bool, end: bool, kind: nat)
    requires kind < 32
    ensures var h := FuHeader(start, end, kind); IsStart(h) == start && IsEnd(h) == end && TypeOf(h) == kind
  {
  }

  /** A NAL unit with its forbidden bit cleared, which is what fragments can carry. */
  function Cleared(nal: Payload): Payload {
    [Header(NriOf(nal[0]), TypeOf(nal[0]))] + nal[1..]
  }

  lemma HeaderOf(h: byte)
    ensures Header(NriOf(h), TypeOf(h)) == h <==> ForbiddenBit(h) == 0
  {
    assert h == 32 * (h / 32) + TypeOf(h) && 0 <= h / 32 < 8;
    assert h / 32 == if ForbiddenBit(h) == 0 then NriOf(h) else NriOf(h) + 4;
  }

  lemma ClearedIsSame(nal: Payload)
    ensures Cleared(nal) == nal <==> ForbiddenBit(nal[0]) == 0
  {
    hide Header, NriOf, TypeOf, ForbiddenBit;
    HeaderOf(nal[0]);
    assert nal == [nal[0]] + nal[1..];
  }

  // ----- Receiving -----

  datatype Packet = Packet(payload: Payload, timestamp: nat, marker: bool)

  /** NAL units waiting for the end of the frame, and a NAL unit of which only a part arrived. */
  datatype Context = Context(queue: seq<seq<byte>>, partial: Option<seq<byte>>)

  function Word(high: byte, low: byte): nat {
    high as int * 256 + low
  }

  /** The NAL units of a STAP-A payload from a position on, up to the first that is cut short. */
  function Split(payload: seq<byte>, p: nat): seq<seq<byte>>
    decreases |payload| - p
  {
    if p + 1 >= |payload| then []
    else
      var next := p + 2 + Word(payload[p], payload[p + 1]);
      if next > |payload| then [] else [payload[p + 2..next]] + Split(payload, next)
  }

  /** A fragment starts a NAL unit, or continues the one that was started. */
  function Aggregate(partial: Option<seq<byte>>, payload: Payload): (Option<seq<byte>>, seq<seq<byte>>)
    requires |payload| >= 2
  {
    var h := payload[1];
    var joined :=
      if IsStart(h) then Some([Header(NriOf(payload[0]), TypeOf(h))] + payload[2..])
      else if partial.Some? then Some(partial.value + payload[2..])
      else None;
    if IsEnd(h) && joined.Some? then (None, [joined.value]) else (joined, [])
  }

  /** A packet that the receiver may look at: a fragment has its two headers. */
  predicate Receivable(payload: Payload) {
    TypeOf(payload[0]) == TYPE_FU_A ==> |payload| >= 2
  }

  function Absorb(c: Context, payload: Payload): Context
    requires Receivable(payload)
  {
    if TypeOf(payload[0]) == TYPE_STAP_A then
      Context(c.queue + Split(payload, 1), c.partial)
    else if TypeOf(payload[0]) == TYPE_FU_A then
      var (partial, whole) := Aggregate(c.partial, payload);
      Context(c.queue + whole, partial)
    else
      Context(c.queue + [payload], c.partial)
  }

  /** One packet: the marker lets out everything that waits. */
  function Receive(c: Context, im: Packet): (Context, seq<seq<byte>>)
    requires Receivable(im.payload)
  {
    var c1 := Absorb(c, im.payload);
    if im.marker then (Context([], c1.partial), c1.queue) else (c1, [])
  }

  function ReceiveAll(c: Context, packets: seq<Packet>): (Context, seq<seq<byte>>)
    requires forall k :: 0 <= k < |packets| ==> Receivable(packets[k].payload)
  {
    if packets == [] then (c, [])
    else
      var n := |packets| - 1;
      var (c1, out1) := ReceiveAll(c, packets[..n]);
      var (c2, out2) := Receive(c1, packets[n]);
      (c2, out1 + out2)
  }

  // ----- Aggregation packets -----

  function SizeField(sz: nat): seq<byte> {
    [sz / 256 % 256, sz % 256]
  }

  lemma SizeFieldRoundTrip(sz: nat)
    requires sz < 0x10000
    ensures |SizeField(sz)| == 2 && Word(SizeField(sz)[0], SizeField(sz)[1]) == sz
  {
  }

  /** The NAL units of a group, each behind its size. */
  function Sized(group: seq<Payload>): seq<byte> {
    if group == [] then []
    else
      var n := |group| - 1;
      Sized(group[..n]) + SizeField(|group[n]|) + group[n]
  }

  /** A group as a payload: one NAL unit alone, or a STAP-A with the importance of the first. */
  function Grouped(group: seq<Payload>): Payload
    requires group != []
  {
    if |group| == 1 then group[0] else [Header(NriOf(group[0][0]), TYPE_STAP_A)] + Sized(group)
  }

  /** The size that a group has as a STAP-A. */
  function StapSize(group: seq<Payload>): nat {
    if group == [] then 1 else StapSize(group[..|group| - 1]) + 2 + |group[|group| - 1]|
  }

  lemma {:induction false} SizedSize(group: seq<Payload>)
    ensures 1 + |Sized(group)| == StapSize(group)
    ensures forall i :: 0 <= i < |group| ==> |group[i]| + 3 <= StapSize(group)
  {
    if group != [] {
      SizedSize(group[..|group| - 1]);
    }
  }

  /** Where the parts of a stretch lie. */
  lemma Stretch(whole: seq<byte>, p: nat, front: seq<byte>, field: seq<byte>, last: seq<byte>)
    requires p + |front| + 2 + |last| <= |whole| && |field| == 2
    requires whole[p..p + |front| + 2 + |last|] == front + field + last
    ensures var q := p + |front|;
            whole[p..q] == front && whole[q] == field[0] && whole[q + 1] == field[1]
              && whole[q + 2..q + 2 + |last|] == last
  {
    var all, q := whole[p..p + |front| + 2 + |last|], |front|;
    assert all[..q] == front && all[q] == field[0] && all[q + 1] == field[1] && all[q + 2..] == last;
    assert whole[p..p + q] == all[..q] && whole[p + q + 2..p + q + 2 + |last|] == all[q + 2..];
  }

  lemma SplitStep(whole: seq<byte>, q: nat, nal: seq<byte>)
    requires q + 2 + |nal| <= |whole| && Word(whole[q], whole[q + 1]) == |nal| && whole[q + 2..q + 2 + |nal|] == nal
    ensures Split(whole, q) == [nal] + Split(whole, q + 2 + |nal|)
  {
    hide Word;
  }

  lemma {:induction false} SplitSized(whole: seq<byte>, p: nat, group: seq<Payload>)
    requires forall i :: 0 <= i < |group| ==> |group[i]| < 0x10000
    requires p + |Sized(group)| <= |whole| && whole[p..p + |Sized(group)|] == Sized(group)
    ensures Split(whole, p) == group + Split(whole, p + |Sized(group)|)
  {
    hide Split, SizeField, Word;
    if group != [] {
      var n := |group| - 1;
      var init, last := group[..n], group[n];
      var q := p + |Sized(init)|;
      SizeFieldRoundTrip(|last|);
      Stretch(whole, p, Sized(init), SizeField(|last|), last);
      SplitSized(whole, p, init);
      SplitStep(whole, q, last);
      assert init + [last] == group;
    } else {
      assert [] + Split(whole, p) == Split(whole, p);
    }
  }

  /** Splitting a STAP-A gives back its NAL units. */
  lemma SplitGrouped(group: seq<Payload>)
    requires |group| > 1 && forall i :: 0 <= i < |group| ==> |group[i]| < 0x10000
    ensures Split(Grouped(group), 1) == group
  {
    var h := [Header(NriOf(group[0][0]), TYPE_STAP_A)];
    SplitSized(Grouped(group), 1, group);
  }

  /** An aggregate that is cut short still gives the NAL units in front of the one that was cut. */
  lemma CutAggregate(h: byte, group: seq<Payload>, tail: seq<byte>)
    requires forall i :: 0 <= i < |group| ==> |group[i]| < 0x10000
    requires |tail| >= 2 ==> tail[0] as int * 256 + tail[1] as int > |tail| - 2
    ensures Split([h] + Sized(group) + tail, 1) == group
  {
    hide Sized;
    var whole := [h] + Sized(group) + tail;
    var p := 1 + |Sized(group)|;
    assert whole[1..p] == Sized(group);
    assert forall k :: 0 <= k < |tail| ==> whole[p + k] == tail[k];
    SplitSized(whole, 1, group);
    assert Split(whole, p) == [];
    assert group + [] == group;
  }

  /** The bytes of an aggregate of two. */
  lemma AggregateBytes(a: Payload, b: Payload)
    requires |a| < 0x10000 && |b| < 0x10000
    ensures Grouped([a, b]) ==
      [a[0] / 32 % 4 * 32 + 24, |a| / 256, |a| % 256] + a + [|b| / 256, |b| % 256] + b
  {
    hide SizeField;
    SizedGrows([], a);
    SizedGrows([a], b);
    assert [] + [a] == [a] && [a] + [b] == [a, b] && Sized([]) == [];
    assert SizeField(|a|) == [|a| / 256, |a| % 256]
      && SizeField(|b|) == [|b| / 256, |b| % 256] by { SizeBytes(|a|); SizeBytes(|b|); }
  }

  lemma SizeBytes(sz: nat)
    requires sz < 0x10000
    ensures SizeField(sz) == [sz / 256, sz % 256]
  {
  }

  lemma SizedGrows(group: seq<Payload>, m: Payload)
    ensures Sized(group + [m]) == Sized(group) + SizeField(|m|) + m
    ensures StapSize(group + [m]) == StapSize(group) + 2 + |m|
  {
    assert (group + [m])[..|group|] == group;
  }

  // ----- Importance -----

  /** A number is the highest importance of some NAL units. */
  ghost predicate IsHighest(nri: nat, nalus: seq<seq<byte>>) {
    && (exists i :: 0 <= i < |nalus| && nalus[i] != [] && NriOf(nalus[i][0]) == nri)
    && forall i :: 0 <= i < |nalus| && nalus[i] != [] ==> NriOf(nalus[i][0]) <= nri
  }

  /** The rule of RFC 3984, section 5.7: an aggregation packet has the highest importance of the NAL units in it. */
  ghost predicate Obeys(payload: Payload) {
    TypeOf(payload[0]) == TYPE_STAP_A ==> IsHighest(NriOf(payload[0]), Split(payload, 1))
  }

  /** No NAL unit of a group is more important than the first. */
  ghost predicate FirstIsHighest(group: seq<Payload>) {
    group != [] && forall i :: 0 <= i < |group| ==> NriOf(group[i][0]) <= NriOf(group[0][0])
  }

  /** A group goes out by the rule exactly when no NAL unit in it is more important than the first. */
  lemma ObeysIffFirstIsHighest(group: seq<Payload>)
    requires group != [] && TypeOf(group[0][0]) != TYPE_STAP_A
    requires forall i :: 0 <= i < |group| ==> |group[i]| < 0x10000
    ensures Obeys(Grouped(group)) <==> FirstIsHighest(group)
  {
    hide Split, Sized, TypeOf, NriOf, Header;
    if |group| > 1 {
      SplitGrouped(group);
      HeaderRoundTrip(NriOf(group[0][0]), TYPE_STAP_A);
      assert group[0] in group && group[0] != [];
    }
  }

  /** A NAL unit of no importance in front of an important one: the packet claims to have none. */
  lemma ImportanceIsLost()
    ensures var group: seq<Payload> := [[Header(0, 1)], [Header(3, 5)]];
            && NriOf(group[1][0]) == 3 && NriOf(Grouped(group)[0]) == 0
            && !FirstIsHighest(group) && !Obeys(Grouped(group))
  {
    hide TypeOf, NriOf, Header, Sized, Split, Obeys;
    var group: seq<Payload> := [[Header(0, 1)], [Header(3, 5)]];
    HeaderRoundTrip(0, 1);
    HeaderRoundTrip(3, 5);
    HeaderRoundTrip(0, TYPE_STAP_A);
    ObeysIffFirstIsHighest(group);
  }

  // ----- What packets add up to -----

  ghost predicate AllReceivable(packets: seq<Packet>) {
    forall k :: 0 <= k < |packets| ==> Receivable(packets[k].payload)
  }

  /** The context after some packets, markers aside. */
  ghost function AbsorbAll(c: Context, packets: seq<Packet>): Context
    requires AllReceivable(packets)
  {
    if packets == [] then c
    else
      var n := |packets| - 1;
      Absorb(AbsorbAll(c, packets[..n]), packets[n].payload)
  }

  lemma AbsorbOneMore(c: Context, packets: seq<Packet>, p: Packet)
    requires AllReceivable(packets) && Receivable(p.payload)
    ensures AllReceivable(packets + [p]) && AbsorbAll(c, packets + [p]) == Absorb(AbsorbAll(c, packets), p.payload)
  {
    assert (packets + [p])[..|packets|] == packets;
  }

  lemma {:induction false} AbsorbConcatenated(c: Context, packets: seq<Packet>, more: seq<Packet>)
    requires AllReceivable(packets) && AllReceivable(more)
    ensures AllReceivable(packets + more) && AbsorbAll(c, packets + more) == AbsorbAll(AbsorbAll(c, packets), more)
  {
    if more == [] {
      assert packets + more == packets;
    } else {
      var n := |more| - 1;
      AbsorbConcatenated(c, packets, more[..n]);
      assert (packets + more)[..|packets| + n] == packets + more[..n];
    }
  }

  lemma {:induction false} UnmarkedLetNothingOut(c: Context, packets: seq<Packet>)
    requires AllReceivable(packets) && forall k :: 0 <= k < |packets| ==> !packets[k].marker
    ensures ReceiveAll(c, packets) == (AbsorbAll(c, packets), [])
  {
    if packets != [] {
      hide Absorb;
      UnmarkedLetNothingOut(c, packets[..|packets| - 1]);
      assert AbsorbAll(c, packets) == Receive(AbsorbAll(c, packets[..|packets| - 1]), packets[|packets| - 1]).0;
      assert ReceiveAll(c, packets).1 == [] + [];
    }
  }

  /** When only the last packet is marked, everything comes out with it. */
  lemma LastLetsAllOut(c: Context, packets: seq<Packet>)
    requires AllReceivable(packets) && packets != []
    requires forall k :: 0 <= k < |packets| ==> (packets[k].marker <==> k == |packets| - 1)
    ensures ReceiveAll(c, packets) == (Context([], AbsorbAll(c, packets).partial), AbsorbAll(c, packets).queue)
  {
    hide Absorb;
    var n, all := |packets| - 1, AbsorbAll(c, packets);
    UnmarkedLetNothingOut(c, packets[..n]);
    assert Receive(AbsorbAll(c, packets[..n]), packets[n]) == (Context([], all.partial), all.queue);
    assert [] + all.queue == all.queue;
  }

  lemma AbsorbSingle(c: Context, nal: Payload)
    requires TypeOf(nal[0]) != TYPE_STAP_A && TypeOf(nal[0]) != TYPE_FU_A
    ensures Receivable(nal) && Absorb(c, nal) == Context(c.queue + [nal], c.partial)
  {
  }

  /** Fragments that none of them starts, once the start is lost, are dropped. */
  lemma {:induction false} NoStartNoUnit(q: seq<seq<byte>>, packets: seq<Packet>)
    requires forall k :: 0 <= k < |packets| ==>
               var p := packets[k].payload; p[0] as int % 32 == 28 && |p| >= 2 && p[1] as int < 128
    ensures AllReceivable(packets) && AbsorbAll(Context(q, None), packets) == Context(q, None)
  {
    if packets != [] {
      NoStartNoUnit(q, packets[..|packets| - 1]);
      assert q + [] == q;
    }
  }

  /** A group arrives as its NAL units. */
  lemma AbsorbGrouped(c: Context, group: seq<Payload>)
    requires group != [] && forall i :: 0 <= i < |group| ==> |group[i]| < 0x10000
    requires TypeOf(group[0][0]) != TYPE_STAP_A && TypeOf(group[0][0]) != TYPE_FU_A
    ensures Receivable(Grouped(group)) && Absorb(c, Grouped(group)) == Context(c.queue + group, c.partial)
  {
    hide Split, Sized, TypeOf, NriOf, Header;
    if |group| == 1 {
      AbsorbSingle(c, group[0]);
      assert group == [group[0]];
    } else {
      HeaderRoundTrip(NriOf(group[0][0]), TYPE_STAP_A);
      SplitGrouped(group);
    }
  }

  /** The payload of a fragment. */
  function Fragment(nri: nat, kind: nat, start: bool, end: bool, data: seq<byte>): Payload
    requires kind < 32
  {
    [Header(nri, TYPE_FU_A), FuHeader(start, end, kind)] + data
  }

  lemma FragmentBytes(nri: nat, kind: nat, start: bool, end: bool, data: seq<byte>)
    requires nri < 4 && kind < 32
    ensures Fragment(nri, kind, start, end, data) ==
      [nri * 32 + 28, (if start then 128 else 0) + (if end then 64 else 0) + kind] + data
  {
  }

  /** A payload whose two header bytes say that it is a certain fragment. */
  ghost predicate IsFragment(p: Payload, nri: nat, kind: nat, start: bool, end: bool, data: seq<byte>) {
    && |p| >= 2 && p[2..] == data && TypeOf(p[0]) == TYPE_FU_A && NriOf(p[0]) == nri
    && TypeOf(p[1]) == kind && IsStart(p[1]) == start && IsEnd(p[1]) == end
  }

  lemma FragmentHeaders(nri: nat, kind: nat, start: bool, end: bool, data: seq<byte>)
    requires nri < 4 && kind < 32
    ensures IsFragment(Fragment(nri, kind, start, end, data), nri, kind, start, end, data)
  {
    hide Header, FuHeader, TypeOf, NriOf, IsStart, IsEnd;
    HeaderRoundTrip(nri, TYPE_FU_A);
    FuHeaderRoundTrip(start, end, kind);
    assert Fragment(nri, kind, start, end, data)[2..] == data;
  }

  lemma AbsorbFragment(c: Context, p: Payload, nri: nat, kind: nat, start: bool, end: bool, data: seq<byte>)
    requires IsFragment(p, nri, kind, start, end, data) && (start || c.partial.Some?)
    ensures Receivable(p)
    ensures var whole := (if start then [Header(nri, kind)] else c.partial.value) + data;
            Absorb(c, p) == if end then Context(c.queue + [whole], None) else Context(c.queue, Some(whole))
  {
    hide Header, TypeOf, NriOf, IsStart, IsEnd;
  }
}
