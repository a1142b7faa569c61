/** Theora frames in RTP packets (theora.c). */
module Theora {
  import opened Octets
  import opened Powers
  import opened Results

  const NOT_FRAGMENTED := 0
  const START_FRAGMENT := 1
  const CONT_FRAGMENT := 2
  const END_FRAGMENT := 3

  // ----- The payload header: ident in 24 bits, fragment and data type in two each, and a packet count in four -----

  function PayloadHeader(ident: nat, ft: nat, tdt: nat, pkts: nat): (h: seq<byte>)
    ensures |h| == 4
  {
    [ident / 0x10000 % 256, ident / 0x100 % 256, ident % 256, ft % 4 * 64 + tdt % 4 * 16 + pkts % 16]
  }

  function GetIdent(h: seq<byte>): nat
    requires |h| >= 4
  {
    h[0] as int * 0x10000 + h[1] as int * 0x100 + h[2]
  }

  function GetFt(h: seq<byte>): nat
    requires |h| >= 4
  {
    h[3] / 64
  }

  function GetTdt(h: seq<byte>): nat
    requires |h| >= 4
  {
    h[3] / 16 % 4
  }

  function GetPkts(h: seq<byte>): nat
    requires |h| >= 4
  {
    h[3] % 16
  }

  lemma HeaderRoundTrip(ident: nat, ft: nat, tdt: nat, pkts: nat)
    requires ident < 0x1000000 && ft < 4 && tdt < 4 && pkts < 16
    ensures var h := PayloadHeader(ident, ft, tdt, pkts);
            GetIdent(h) == ident && GetFt(h) == ft && GetTdt(h) == tdt && GetPkts(h) == pkts
  {
    LowByte(ft, tdt, pkts);
    hide GetFt, GetTdt, GetPkts;
    assert ident / 0x10000 * 0x100 + ident / 0x100 % 256 == ident / 0x100;
  }

  lemma LowByte(ft: nat, tdt: nat, pkts: nat)
    requires ft < 4 && tdt < 4 && pkts < 16
    ensures var b := ft % 4 * 64 + tdt % 4 * 16 + pkts % 16;
            b < 256 && b / 64 == ft && b / 16 % 4 == tdt && b % 16 == pkts
  {
    var b := ft * 64 + tdt * 16 + pkts;
    assert ft % 4 == ft && tdt % 4 == tdt && pkts % 16 == pkts;
    assert b / 16 == ft * 4 + tdt;
  }

  // ----- The receiver -----

  datatype Packet = Packet(data: seq<byte>, timestamp: nat)

  /** The frame in progress, and the frame that a packet completes. */
  function Unpacked(cur: Option<seq<byte>>, im: seq<byte>): (Option<seq<byte>>, Option<seq<byte>>)
    requires |im| >= 6
  {
    var ft, body := GetFt(im), im[6..];
    if ft == NOT_FRAGMENTED then (cur, Some(body))
    else if ft == START_FRAGMENT then (Some(body), None)
    else if cur.None? then (None, None)
    else if ft == CONT_FRAGMENT then (Some(cur.value + body), None)
    else (None, Some(cur.value + body))
  }

  ghost predicate Complete(packets: seq<Packet>) {
    forall k :: 0 <= k < |packets| ==> |packets[k].data| >= 6
  }

  /** What each of some packets completes. */
  ghost function UnpackedAll(cur: Option<seq<byte>>, packets: seq<Packet>): (Option<seq<byte>>, seq<Option<seq<byte>>>)
    requires Complete(packets)
  {
    if packets == [] then (cur, [])
    else
      var n := |packets| - 1;
      var (before, outs) := UnpackedAll(cur, packets[..n]);
      var (after, out) := Unpacked(before, packets[n].data);
      (after, outs + [out])
  }

  /** Continuations and ends whose start was lost complete nothing, and leave nothing behind. */
  lemma {:induction false} NoStartNoFrame(packets: seq<Packet>)
    requires Complete(packets) && forall k :: 0 <= k < |packets| ==> packets[k].data[3] as int / 64 >= 2
    ensures UnpackedAll(None, packets).0 == None
    ensures forall k :: 0 <= k < |UnpackedAll(None, packets).1| ==> UnpackedAll(None, packets).1[k] == None
  {
    if packets != [] {
      NoStartNoFrame(packets[..|packets| - 1]);
    }
  }

  class TheoraDecoder {
    var curframe: Option<seq<byte>>

    constructor ()
      ensures curframe == None
    {
      curframe := None;
    }

    method Unpacketize(im: seq<byte>) returns (ret: Option<seq<byte>>, tdt: nat)
      requires |im| >= 6
      modifies this
      ensures (curframe, ret) == Unpacked(old(curframe), im) && tdt == GetTdt(im)
    {
      hide GetFt, GetTdt;
      tdt := GetTdt(im);
      var ft, body := GetFt(im), im[6..];
      if ft == NOT_FRAGMENTED {
        return Some(body), tdt;
      }
      if ft == START_FRAGMENT {
        curframe := Some(body);
      } else if ft == CONT_FRAGMENT {
        if curframe.Some? {
          curframe := Some(curframe.value + body);
        }
      } else {
        if curframe.Some? {
          ret := Some(curframe.value + body);
          curframe := None;
          return;
        }
      }
      ret := None;
    }
  }

  // ----- The sender -----

  const IDENT := 0xdede

  function WirePacket(ft: nat, tdt: nat, payload: seq<byte>): seq<byte> {
    PayloadHeader(IDENT, ft, tdt, 1) + [|payload| / 0x100 % 256, |payload| % 256] + payload
  }

  lemma WireReads(ft: nat, tdt: nat, payload: seq<byte>)
    requires ft < 4 && tdt < 4
    ensures var w := WirePacket(ft, tdt, payload);
            |w| == 6 + |payload| && GetFt(w) == ft && GetTdt(w) == tdt && GetIdent(w) == IDENT && w[6..] == payload
  {
    HeaderRoundTrip(IDENT, ft, tdt, 1);
    var h, w := PayloadHeader(IDENT, ft, tdt, 1), WirePacket(ft, tdt, payload);
    hide PayloadHeader;
    assert w[..4] == h;
    assert w[0] == h[0] && w[1] == h[1] && w[2] == h[2] && w[3] == h[3];
  }

  lemma WireBytes(ft: nat, tdt: nat, payload: seq<byte>)
    requires ft < 4 && tdt < 4
    ensures |WirePacket(ft, tdt, payload)| == 6 + |payload|
    ensures WirePacket(ft, tdt, payload)[..6] ==
      [0, 0xde, 0xde, ft * 64 + tdt * 16 + 1, |payload| / 0x100 % 256, |payload| % 256]
  {
    assert ft % 4 == ft && tdt % 4 == tdt;
    assert PayloadHeader(IDENT, ft, tdt, 1) == [0, 0xde, 0xde, ft * 64 + tdt * 16 + 1];
    hide PayloadHeader;
  }

  lemma UnpackedMore(cur: Option<seq<byte>>, packets: seq<Packet>, p: Packet)
    requires Complete(packets) && |p.data| >= 6
    ensures Complete(packets + [p])
    ensures var (before, outs) := UnpackedAll(cur, packets); var (after, out) := Unpacked(before, p.data);
            UnpackedAll(cur, packets + [p]) == (after, outs + [out])
  {
    assert (packets + [p])[..|packets|] == packets;
  }

  function Nothings(n: nat): seq<Option<seq<byte>>> {
    seq(n, _ => None)
  }

  /** Packets whose payloads are at most mtu bytes, with the type of data and the time of the frame. */
  ghost predicate Fitting(packets: seq<Packet>, mtu: nat, ts: nat, tdt: nat) {
    forall k :: 0 <= k < |packets| ==>
      6 <= |packets[k].data| <= 6 + mtu && packets[k].timestamp == ts && GetTdt(packets[k].data) == tdt
        && GetIdent(packets[k].data) == IDENT
  }

  /**
   * The bytes of a frame's packets: whole frame, start, continuation or end in the two highest bits of the fourth,
   * the size of the payload in the two after it; all but the last carry mtu bytes.
   */
  ghost predicate Numbered(packets: seq<Packet>, mtu: nat, ended: bool) {
    forall k :: 0 <= k < |packets| ==>
      var p, last := packets[k].data, ended && k == |packets| - 1;
      && |p| >= 6 && p[3] as int / 64 == (if k == 0 then (if last then 0 else 1) else if last then 3 else 2)
      && p[4] as int * 256 + p[5] as int == (|p| - 6) % 0x10000
      && (!last ==> |p| == 6 + mtu)
  }

  lemma NumberedMore(packets: seq<Packet>, mtu: nat, ft: nat, tdt: nat, payload: seq<byte>, p: Packet, last: bool)
    requires Complete(packets) && Numbered(packets, mtu, false) && tdt < 4 && (!last ==> |payload| == mtu)
    requires ft == if packets == [] then (if last then 0 else 1) else if last then 3 else 2
    requires p.data == WirePacket(ft, tdt, payload)
    ensures Complete(packets + [p]) && Numbered(packets + [p], mtu, last)
  {
    hide WirePacket;
    WireBytes(ft, tdt, payload);
    SizeInTwoBytes(|payload|);
    var first, all := p.data[..6], packets + [p];
    assert first[3] == p.data[3] && first[4] == p.data[4] && first[5] == p.data[5];
    assert (ft * 64 + tdt * 16 + 1) / 64 == ft;
    assert forall k :: 0 <= k < |packets| ==> all[k] == packets[k];
  }

  lemma SizeInTwoBytes(size: nat)
    ensures size / 0x100 % 256 * 256 + size % 256 == size % 0x10000
  {
  }

  /** A receiver that had begun a frame gets this one with the last packet and nothing before. */
  ghost predicate Arrives(packets: seq<Packet>, frame: seq<byte>, mtu: nat, cur: Option<seq<byte>>)
    requires Complete(packets)
  {
    packets != [] &&
    UnpackedAll(cur, packets) == (if |frame| < mtu then cur else None, Nothings(|packets| - 1) + [Some(frame)])
  }

  /** The packets of a frame: whatever the receiver had begun, it gets this frame with the last packet and nothing
      before. */
  method PacketizeAndSend(frame: seq<byte>, mtu: nat, timestamp: nat, tdt: nat, ghost cur: Option<seq<byte>>)
    returns (packets: seq<Packet>)
    requires 0 < mtu && tdt < 4
    ensures |packets| == |frame| / mtu + 1 && Complete(packets)
    ensures Fitting(packets, mtu, timestamp, tdt) && Numbered(packets, mtu, true)
    ensures Arrives(packets, frame, mtu, cur)
  {
    hide WirePacket, GetFt, GetTdt, GetIdent, UnpackedAll, Nothings, Numbered;
    packets := [];
    var npackets := 0;
    var om: Option<seq<byte>> := Some(frame);
    ghost var pos := 0;
    NothingUnpacked(cur);
    NothingNumbered(mtu);
    while om.Some?
      invariant Complete(packets) && Numbered(packets, mtu, om.None?)
      invariant npackets == |packets| && Fitting(packets, mtu, timestamp, tdt) && Complete(packets)
      invariant om.Some? ==> 0 <= pos <= |frame| && om.value == frame[pos..] && pos == npackets * mtu
      invariant om.Some? ==>
        UnpackedAll(cur, packets) == (if npackets == 0 then cur else Some(frame[..pos]), Nothings(npackets))
      invariant om.None? ==> npackets > 0 && npackets == |frame| / mtu + 1
      invariant om.None? ==> UnpackedAll(cur, packets) ==
                             (if npackets == 1 then cur else None, Nothings(npackets - 1) + [Some(frame)])
      decreases if om.Some? then |om.value| + 1 else 0
    {
      var packet;
      if |om.value| >= mtu {
        packet := om.value[..mtu];
        om := Some(om.value[mtu..]);
      } else {
        packet := om.value;
        om := None;
      }
      npackets := npackets + 1;
      var ft := if npackets == 1 then (if om.None? then NOT_FRAGMENTED else START_FRAGMENT)
                else if om.None? then END_FRAGMENT else CONT_FRAGMENT;
      var h := Packet(WirePacket(ft, tdt, packet), timestamp);
      WireReads(ft, tdt, packet);
      UnpackedMore(cur, packets, h);
      NumberedMore(packets, mtu, ft, tdt, packet, h, om.None?);
      MoreNothings(npackets);
      Pieces(frame, pos, packet);
      CountPackets(npackets, mtu, |packet|, |frame|);
      packets := packets + [h];
      pos := pos + |packet|;
    }
    CountSmall(|frame|, mtu);
  }

  lemma NothingUnpacked(cur: Option<seq<byte>>)
    ensures UnpackedAll(cur, []) == (cur, Nothings(0)) == (cur, [])
  {
    assert Nothings(0) == [];
  }

  lemma NothingNumbered(mtu: nat)
    ensures Numbered([], mtu, false)
  {
  }

  lemma MoreNothings(n: nat)
    requires n > 0
    ensures Nothings(n) == Nothings(n - 1) + [None]
  {
  }

  lemma Pieces(frame: seq<byte>, pos: nat, packet: seq<byte>)
    requires pos + |packet| <= |frame| && packet == frame[pos..pos + |packet|]
    ensures frame[..pos] + packet == frame[..pos + |packet|]
    ensures pos + |packet| == |frame| ==> frame[..pos] + packet == frame
    ensures pos == 0 && |packet| == |frame| ==> packet == frame
    ensures pos == 0 ==> packet == frame[..|packet|]
  {
  }

  lemma CountPackets(n: nat, mtu: nat, last: nat, size: nat)
    requires n > 0 && mtu > 0
    ensures n * mtu == (n - 1) * mtu + mtu
    ensures last < mtu && size == (n - 1) * mtu + last ==> size / mtu + 1 == n
  {
    if last < mtu && size == (n - 1) * mtu + last {
      DivModUnique(size, mtu, n - 1, last);
    }
  }

  lemma CountSmall(size: nat, mtu: nat)
    requires mtu > 0
    ensures size / mtu == 0 <==> size < mtu
  {
  }

  /** Frames sent one after another come out one by one, each with its last packet. */
  method Transmit(frames: seq<seq<byte>>, mtu: nat, timestamp: nat, tdt: nat, decoder: TheoraDecoder)
    returns (out: seq<seq<byte>>)
    requires 0 < mtu && tdt < 4
    modifies decoder
    ensures out == frames
  {
    hide UnpackedAll, Unpacked, Fitting, Nothings, Completed;
    out := [];
    for f := 0 to |frames|
      invariant out == frames[..f]
    {
      ghost var cur, got := decoder.curframe, [];
      var packets := PacketizeAndSend(frames[f], mtu, timestamp, tdt, cur);
      NothingUnpacked(cur);
      NothingCompleted();
      for k := 0 to |packets|
        invariant Complete(packets[..k]) && (decoder.curframe, got) == UnpackedAll(cur, packets[..k])
        invariant out == frames[..f] + Completed(got)
      {
        UnpackedMore(cur, packets[..k], packets[k]);
        assert packets[..k + 1] == packets[..k] + [packets[k]];
        var ret, kind := decoder.Unpacketize(packets[k].data);
        CompletedMore(got, ret);
        got := got + [ret];
        if ret.Some? {
          out := out + [ret.value];
        }
      }
      assert packets[..|packets|] == packets;
      OnlyLast(frames[f], |packets| - 1);
    }
  }

  /** The frames among some results. */
  function Completed(got: seq<Option<seq<byte>>>): seq<seq<byte>> {
    if got == [] then []
    else
      var n := |got| - 1;
      Completed(got[..n]) + if got[n].Some? then [got[n].value] else []
  }

  lemma NothingCompleted()
    ensures Completed([]) == []
  {
  }

  lemma CompletedMore(got: seq<Option<seq<byte>>>, ret: Option<seq<byte>>)
    ensures Completed(got + [ret]) == Completed(got) + if ret.Some? then [ret.value] else []
  {
    assert (got + [ret])[..|got|] == got;
  }

  lemma {:induction false} NothingsCompleted(n: nat)
    ensures Completed(Nothings(n)) == []
  {
    if n > 0 {
      NothingsCompleted(n - 1);
      assert Nothings(n)[..n - 1] == Nothings(n - 1);
    }
  }

  lemma OnlyLast(frame: seq<byte>, n: nat)
    ensures Completed(Nothings(n) + [Some(frame)]) == [frame]
  {
    NothingsCompleted(n);
    CompletedMore(Nothings(n), Some(frame));
  }
}
