/** H.263 in RTP packets (videoenc.c, videodec.c, rfc2429.h). */
module Rfc2429 {
  import opened Octets
  import opened Results

  // ----- The payload header (RFC 2429, section 5.1) -----

  function GetP(h0: byte): nat {
    h0 / 4 % 2
  }

  function GetV(h0: byte): nat {
    h0 / 2 % 2
  }

  function GetPlen(h0: byte, h1: byte): nat {
    (h0 as int * 256 + h1) / 8 % 64
  }

  function SetP(h0: byte): byte {
    if GetP(h0) == 1 then h0 else h0 + 4
  }

  /** Setting P changes no other field. */
  lemma SetPKeepsRest(h0: byte, h1: byte)
    ensures GetP(SetP(h0)) == 1 && GetV(SetP(h0)) == GetV(h0) && GetPlen(SetP(h0), h1) == GetPlen(h0, h1)
  {
    PlenOf(h0, h1);
    PlenOf(SetP(h0), h1);
    hide GetPlen;
    if GetP(h0) != 1 {
      var h := h0 + 4;
      assert h / 4 == h0 / 4 + 1 && h / 2 == h0 / 2 + 2 && h % 2 == h0 % 2;
    }
  }

  lemma PlenOf(h0: byte, h1: byte)
    ensures GetPlen(h0, h1) == h0 % 2 * 32 + h1 / 8
  {
    assert (h0 as int * 256 + h1) / 8 == h0 * 32 + h1 / 8;
    assert h0 as int * 32 == 64 * (h0 / 2) + h0 % 2 * 32;
  }

  // ----- The receiver -----

  /** A header that is all there. */
  predicate Receivable(p: seq<byte>) {
    |p| >= 2 ==> GetPlen(p[0], p[1]) + 2 <= |p|
  }

  /** The bitstream of a packet: the redundant picture header is skipped, and omitted zeros are put back. */
  function SkipHeader(p: seq<byte>): Option<seq<byte>>
    requires Receivable(p)
  {
    if |p| < 2 then None
    else
      var q := p[GetPlen(p[0], p[1])..];
      Some(if GetP(p[0]) == 1 then [0, 0] + q[2..] else q[2..])
  }

  // ----- Any sender's header -----

  /** A header: five reserved bits, P, V, PLEN in six bits and PEBIT in three. */
  function Header(p: nat, v: nat, plen: nat, pebit: nat): (h: seq<byte>)
    requires p < 2 && v < 2 && plen < 64 && pebit < 8
    ensures |h| == 2
  {
    var h := p * 1024 + v * 512 + plen * 8 + pebit;
    [h / 256, h % 256]
  }

  lemma HeaderReads(p: nat, v: nat, plen: nat, pebit: nat)
    requires p < 2 && v < 2 && plen < 64 && pebit < 8
    ensures var h := Header(p, v, plen, pebit); GetP(h[0]) == p && GetV(h[0]) == v && GetPlen(h[0], h[1]) == plen
  {
    var h := p * 1024 + v * 512 + plen * 8 + pebit;
    assert h == h / 256 * 256 + h % 256;
    assert h / 256 == p * 4 + v * 2 + plen / 32;
    assert h / 8 == p * 128 + v * 64 + plen;
  }

  /** Behind the header PLEN bytes of picture header are skipped, and two zeros are put back when P is set. */
  lemma HeaderIsSkipped(p: nat, v: nat, plen: nat, pebit: nat, extra: seq<byte>, bits: seq<byte>)
    requires p < 2 && v < 2 && plen < 64 && pebit < 8 && |extra| == plen
    ensures var packet := Header(p, v, plen, pebit) + extra + bits;
            Receivable(packet) && SkipHeader(packet) == Some(if p == 1 then [0, 0] + bits else bits)
  {
    hide GetP, GetPlen, GetV;
    HeaderReads(p, v, plen, pebit);
    var h := Header(p, v, plen, pebit);
    hide Header;
    var packet := h + extra + bits;
    assert packet[0] == h[0] && packet[1] == h[1];
    assert packet[plen..][2..] == packet[plen + 2..] == bits;
  }

  /** A packet too short for a header changes nothing, marked or not. */
  lemma ShortIsDropped(input: Option<seq<byte>>, inm: seq<byte>, marker: bool)
    requires |inm| < 2
    ensures Receivable(inm) && Accumulate(input, inm, marker) == (input, None)
  {
  }

  class Decoder {
    var input: Option<seq<byte>>

    constructor ()
      ensures input == None
    {
      input := None;
    }

    /** The half of dec_process_frame that collects packets up to the mark; the frame goes on to the codec. */
    method ProcessPacket(inm: seq<byte>, marker: bool) returns (frame: Option<seq<byte>>)
      requires Receivable(inm)
      modifies this
      ensures (input, frame) == Accumulate(old(input), inm, marker)
    {
      hide GetP, GetPlen;
      frame := None;
      var skipped := SkipPacketHeader(inm);
      if skipped.Some? {
        if input == None {
          input := skipped;
        } else {
          input := Some(input.value + skipped.value);
        }
        if marker {
          frame := input;
          input := None;
        }
      }
    }

    method SkipPacketHeader(inm: seq<byte>) returns (r: Option<seq<byte>>)
      requires Receivable(inm)
      ensures r == SkipHeader(inm)
    {
      hide GetP, GetPlen;
      if |inm| >= 2 {
        var m := inm;
        var p, plen := GetP(m[0]), GetPlen(m[0], m[1]);
        if plen > 0 {
          m := m[plen..];
        }
        if p == 1 {
          m := m[0 := 0][1 := 0];
          assert m == [0, 0] + m[2..];
        } else {
          m := m[2..];
        }
        r := Some(m);
      } else {
        r := None;
      }
    }
  }

  /** Collecting one packet: a packet too short for a header is dropped, its marker included. */
  function Accumulate(input: Option<seq<byte>>, inm: seq<byte>, marker: bool): (Option<seq<byte>>, Option<seq<byte>>)
    requires Receivable(inm)
  {
    match SkipHeader(inm)
    case None => (input, None)
    case Some(bits) =>
      var all := if input.Some? then input.value + bits else bits;
      if marker then (None, Some(all)) else (Some(all), None)
  }

  // ----- Packets -----

  /** A packet as a stretch of the frame's buffer, behind a zero header of its own if it is a follow-on packet. */
  datatype Piece = Piece(followOn: bool, from: nat, to: nat, timestamp: nat, marker: bool)

  function Wire(p: Piece, buffer: seq<byte>): seq<byte>
    requires p.from <= p.to <= |buffer|
  {
    (if p.followOn then [0, 0] else []) + buffer[p.from..p.to]
  }

  /** Pieces that follow one another from the start of the frame, none too large. */
  ghost predicate Tiling(pieces: seq<Piece>, upto: nat, mtu: nat, ts: nat) {
    if pieces == [] then upto == 0
    else
      var n := |pieces| - 1;
      && pieces[n].from < pieces[n].to == upto <= pieces[n].from + mtu && pieces[n].timestamp == ts
      && (n == 0 ==> !pieces[n].followOn)
      && Tiling(pieces[..n], pieces[n].from, mtu, ts)
  }

  /** A piece whose bytes are the frame's: a picture or GOB start lost its zeros but has P set. */
  ghost predicate Faithful(p: Piece, mtu: nat, frame: seq<byte>, buffer: seq<byte>) {
    && p.from < p.to <= |buffer| == |frame|
    && if p.followOn then buffer[p.from..p.to] == frame[p.from..p.to]
       else
         && p.from + 1 < |frame| && frame[p.from] == 0 && frame[p.from + 1] == 0
         && buffer[p.from] == 4 && buffer[p.from + 1..p.to] == frame[p.from + 1..p.to]
         && (mtu >= 2 ==> p.to - p.from >= 2)
  }

  /** What arrives of a piece: its stretch of the frame, or nothing when it is too short for a header. */
  function Arrived(p: Piece, frame: seq<byte>): Option<seq<byte>>
    requires p.from <= p.to <= |frame|
  {
    if p.followOn || p.to - p.from >= 2 then Some(frame[p.from..p.to]) else None
  }

  lemma ZeroP()
    ensures GetP(0) == 0
  {
  }

  lemma ZeroPlen()
    ensures GetPlen(0, 0) == 0
  {
  }

  lemma StartP()
    ensures GetP(4) == 1
  {
  }

  lemma StartPlen()
    ensures GetPlen(4, 0) == 0
  {
  }

  lemma FollowOnArrives(p: Piece, mtu: nat, frame: seq<byte>, buffer: seq<byte>)
    requires Faithful(p, mtu, frame, buffer) && p.followOn
    ensures Receivable(Wire(p, buffer)) && SkipHeader(Wire(p, buffer)) == Arrived(p, frame)
  {
    hide GetP, GetPlen;
    ZeroP();
    ZeroPlen();
    assert Wire(p, buffer)[2..] == frame[p.from..p.to];
  }

  lemma StartArrives(p: Piece, mtu: nat, frame: seq<byte>, buffer: seq<byte>)
    requires Faithful(p, mtu, frame, buffer) && !p.followOn
    ensures Receivable(Wire(p, buffer)) && SkipHeader(Wire(p, buffer)) == Arrived(p, frame)
  {
    hide GetP, GetPlen;
    StartP();
    StartPlen();
    var w, tail := Wire(p, buffer), frame[p.from + 1..p.to];
    if |w| >= 2 {
      assert w == [4] + tail && tail[0] == 0;
      assert w[2..] == tail[1..] == frame[p.from + 2..p.to];
      assert [0, 0] + frame[p.from + 2..p.to] == frame[p.from..p.to];
    }
  }

  lemma FaithfulArrives(p: Piece, mtu: nat, frame: seq<byte>, buffer: seq<byte>)
    requires Faithful(p, mtu, frame, buffer)
    ensures p.from < p.to <= |frame| == |buffer|
    ensures Receivable(Wire(p, buffer)) && SkipHeader(Wire(p, buffer)) == Arrived(p, frame)
    ensures mtu >= 2 ==> p.followOn || p.to - p.from >= 2
  {
    if p.followOn { FollowOnArrives(p, mtu, frame, buffer); } else { StartArrives(p, mtu, frame, buffer); }
  }

  ghost predicate AllFaithful(pieces: seq<Piece>, mtu: nat, frame: seq<byte>, buffer: seq<byte>) {
    forall k :: 0 <= k < |pieces| ==> Faithful(pieces[k], mtu, frame, buffer)
  }

  /** What a receiver makes of faithful pieces. */
  ghost function ReceiveAll(input: Option<seq<byte>>, pieces: seq<Piece>, mtu: nat, frame: seq<byte>, buffer: seq<byte>)
    : (Option<seq<byte>>, seq<seq<byte>>)
    requires AllFaithful(pieces, mtu, frame, buffer)
  {
    if pieces == [] then (input, [])
    else
      var n := |pieces| - 1;
      var (before, frames) := ReceiveAll(input, pieces[..n], mtu, frame, buffer);
      FaithfulArrives(pieces[n], mtu, frame, buffer);
      var (after, out) := Accumulate(before, Wire(pieces[n], buffer), pieces[n].marker);
      (after, frames + if out.Some? then [out.value] else [])
  }

  /** One more piece, in terms of what arrives of it. */
  lemma ReceiveStep(input: Option<seq<byte>>, pieces: seq<Piece>, mtu: nat, frame: seq<byte>, buffer: seq<byte>)
    requires AllFaithful(pieces, mtu, frame, buffer) && pieces != []
    ensures var last := pieces[|pieces| - 1];
            && last.from < last.to <= |frame| && AllFaithful(pieces[..|pieces| - 1], mtu, frame, buffer)
            && (mtu >= 2 ==> last.followOn || last.to - last.from >= 2)
            && var (before, frames) := ReceiveAll(input, pieces[..|pieces| - 1], mtu, frame, buffer);
               ReceiveAll(input, pieces, mtu, frame, buffer) ==
               match Arrived(last, frame)
               case None => (before, frames)
               case Some(bits) =>
                 var all := if before.Some? then before.value + bits else bits;
                 if last.marker then (None, frames + [all]) else (Some(all), frames)
  {
    var last := pieces[|pieces| - 1];
    FaithfulArrives(last, mtu, frame, buffer);
    hide Faithful, SkipHeader, Wire, Receivable, Arrived;
    var frames := ReceiveAll(input, pieces[..|pieces| - 1], mtu, frame, buffer).1;
    assert frames + [] == frames;
  }

  lemma TilingPrefix(pieces: seq<Piece>, upto: nat, mtu: nat, ts: nat)
    requires Tiling(pieces, upto, mtu, ts) && pieces != []
    ensures var last := pieces[|pieces| - 1];
            && Tiling(pieces[..|pieces| - 1], last.from, mtu, ts) && last.from < last.to == upto
              && last.to - last.from <= mtu
            && (|pieces| == 1 ==> last.from == 0 && !last.followOn)
  {
  }

  lemma Slices(frame: seq<byte>, i: nat, j: nat)
    requires i <= j <= |frame|
    ensures frame[..i] + frame[i..j] == frame[..j]
  {
  }

  ghost predicate NoneMarked(pieces: seq<Piece>) {
    forall k :: 0 <= k < |pieces| ==> !pieces[k].marker
  }

  lemma NoneMarkedBefore(pieces: seq<Piece>)
    requires pieces != [] && NoneMarked(pieces)
    ensures NoneMarked(pieces[..|pieces| - 1]) && !pieces[|pieces| - 1].marker
  {
  }

  /** Unmarked pieces pile up to the frame so far. */
  lemma {:induction false} PiecesPileUp(pieces: seq<Piece>, upto: nat, mtu: nat, ts: nat, frame: seq<byte>,
      buffer: seq<byte>)
    requires Tiling(pieces, upto, mtu, ts) && AllFaithful(pieces, mtu, frame, buffer) && upto <= |frame|
             && NoneMarked(pieces) && mtu >= 2
    ensures ReceiveAll(None, pieces, mtu, frame, buffer) == (if pieces == [] then None else Some(frame[..upto]), [])
  {
    if pieces != [] {
      hide AllFaithful, ReceiveAll, NoneMarked;
      NoneMarkedBefore(pieces);
      var n := |pieces| - 1;
      ReceiveStep(None, pieces, mtu, frame, buffer);
      TilingPrefix(pieces, upto, mtu, ts);
      hide Tiling;
      PiecesPileUp(pieces[..n], pieces[n].from, mtu, ts, frame, buffer);
      Slices(frame, pieces[n].from, upto);
    }
  }

  /** With packets of single bytes, the starts are dropped and something is always missing. */
  lemma {:induction false} BytesGetLost(pieces: seq<Piece>, upto: nat, ts: nat, frame: seq<byte>, buffer: seq<byte>)
    requires Tiling(pieces, upto, 1, ts) && AllFaithful(pieces, 1, frame, buffer) && upto <= |frame|
             && NoneMarked(pieces)
    ensures var (input, frames) := ReceiveAll(None, pieces, 1, frame, buffer);
            frames == [] && (pieces == [] ==> input == None) && (pieces != [] ==> input.None? || |input.value| < upto)
  {
    if pieces != [] {
      hide AllFaithful, ReceiveAll, NoneMarked;
      NoneMarkedBefore(pieces);
      var n := |pieces| - 1;
      ReceiveStep(None, pieces, 1, frame, buffer);
      TilingPrefix(pieces, upto, 1, ts);
      hide Tiling;
      BytesGetLost(pieces[..n], pieces[n].from, ts, frame, buffer);
    }
  }

  /** The frame arrives whole exactly when the packets can hold a header. */
  lemma FrameArrives(pieces: seq<Piece>, mtu: nat, ts: nat, frame: seq<byte>, buffer: seq<byte>)
    requires mtu > 0 && Tiling(pieces, |frame|, mtu, ts) && AllFaithful(pieces, mtu, frame, buffer) && pieces != []
    requires NoneMarked(pieces[..|pieces| - 1]) && pieces[|pieces| - 1].marker
    ensures ReceiveAll(None, pieces, mtu, frame, buffer) == (None, [frame]) <==> mtu >= 2
  {
    hide AllFaithful, ReceiveAll;
    var n := |pieces| - 1;
    ReceiveStep(None, pieces, mtu, frame, buffer);
    TilingPrefix(pieces, |frame|, mtu, ts);
    hide Tiling;
    if mtu >= 2 {
      PiecesPileUp(pieces[..n], pieces[n].from, mtu, ts, frame, buffer);
      assert frame[..pieces[n].from] + frame[pieces[n].from..|frame|] == frame;
      assert n == 0 ==> frame[0..|frame|] == frame;
      assert [] + [frame] == [frame];
    } else {
      BytesGetLost(pieces[..n], pieces[n].from, ts, frame, buffer);
      var frames := ReceiveAll(None, pieces, mtu, frame, buffer).1;
      assert frames != [] ==> |frames[0]| < |frame|;
    }
  }

  // ----- The sender -----

  function Times(i: nat, mtu: nat): nat {
    i * mtu
  }

  /** How many packets of a size it takes. */
  function RoundUp(len: nat, mtu: nat): nat
    requires mtu > 0
  {
    (len + mtu - 1) / mtu
  }

  lemma RoundedUp(len: nat, mtu: nat)
    requires 0 < mtu < len
    ensures var num := RoundUp(len, mtu);
            Times(num, mtu) >= len && num > 1 && Times(num - 1, mtu) < len && Times(1, mtu) == mtu
  {
    var a := len + mtu - 1;
    assert a == mtu * RoundUp(len, mtu) + a % mtu;
  }

  lemma NextMultiple(i: nat, num: nat, mtu: nat, len: nat)
    requires i < num && Times(num - 1, mtu) < len
    ensures Times(i + 1, mtu) == Times(i, mtu) + mtu && Times(i, mtu) < len
  {
    assert (num - 1 - i) * mtu >= 0;
  }

  lemma TilingMore(pieces: seq<Piece>, upto: nat, mtu: nat, ts: nat, p: Piece)
    requires Tiling(pieces, upto, mtu, ts) && p.from == upto && p.from < p.to <= upto + mtu && p.timestamp == ts
    requires pieces == [] ==> !p.followOn
    ensures Tiling(pieces + [p], p.to, mtu, ts)
  {
    assert (pieces + [p])[..|pieces|] == pieces;
  }

  /** The pieces of one stretch: its start, then follow-on packets. */
  ghost predicate Stretch(packets: seq<Piece>, psc: nat, end: nat, mtu: nat) {
    && packets != [] && packets[0].from == psc && (psc + 2 <= end && mtu >= 2 ==> packets[0].to >= psc + 2)
    && forall k :: 0 <= k < |packets| ==>
         && psc <= packets[k].from < packets[k].to <= end
         && (packets[k].followOn <==> k > 0) && (k > 0 ==> packets[k].from > psc)
         && (k < |packets| - 1 ==> packets[k].to - packets[k].from == mtu)
  }

  lemma StretchMore(packets: seq<Piece>, psc: nat, end: nat, mtu: nat, p: Piece)
    requires Stretch(packets, psc, end, mtu) && psc < p.from < p.to <= end && p.followOn && !p.marker
             && NoneMarked(packets)
    requires packets[|packets| - 1].to - packets[|packets| - 1].from == mtu
    ensures Stretch(packets + [p], psc, end, mtu) && NoneMarked(packets + [p])
  {
  }

  lemma StretchStarts(psc: nat, end: nat, mtu: nat, p: Piece)
    requires p.from == psc < p.to <= end && !p.followOn && !p.marker && (p.to < end ==> p.to == psc + mtu)
    ensures Stretch([p], psc, end, mtu) && NoneMarked([p])
  {
  }

  /** Marking the last packet changes nothing else. */
  lemma MarkLast(pieces: seq<Piece>, packets: seq<Piece>, psc: nat, end: nat, mtu: nat, ts: nat, marker: bool)
    requires Sent(pieces, packets, psc, end, end, mtu, ts) && NoneMarked(pieces)
    ensures var marked := packets[|packets| - 1 := packets[|packets| - 1].(marker := marker)];
            && Stretch(marked, psc, end, mtu) && Tiling(pieces + marked, end, mtu, ts)
            && NoneMarked((pieces + marked)[..|pieces + marked| - 1]) && marked[|marked| - 1].marker == marker
  {
    var n := |pieces + packets| - 1;
    var marked := packets[|packets| - 1 := packets[|packets| - 1].(marker := marker)];
    assert (pieces + marked)[..n] == (pieces + packets)[..n];
  }

  /** The stretch so far: its packets reach up to a position, and none is marked. */
  ghost predicate Sent(pieces: seq<Piece>, packets: seq<Piece>, psc: nat, pos: nat, end: nat, mtu: nat, ts: nat) {
    && Stretch(packets, psc, end, mtu) && Tiling(pieces + packets, pos, mtu, ts) && NoneMarked(packets)
    && (pos < end ==> packets[|packets| - 1].to - packets[|packets| - 1].from == mtu)
  }

  lemma SentStarts(pieces: seq<Piece>, p: Piece, psc: nat, end: nat, mtu: nat, ts: nat)
    requires Tiling(pieces, psc, mtu, ts) && p.from == psc < p.to <= end && p.to <= psc + mtu
             && (p.to < end ==> p.to == psc + mtu)
    requires !p.followOn && !p.marker && p.timestamp == ts
    ensures Sent(pieces, [p], psc, p.to, end, mtu, ts)
  {
    TilingMore(pieces, psc, mtu, ts, p);
    StretchStarts(psc, end, mtu, p);
  }

  lemma SentMore(pieces: seq<Piece>, packets: seq<Piece>, psc: nat, pos: nat, end: nat, mtu: nat, ts: nat, p: Piece)
    requires Sent(pieces, packets, psc, pos, end, mtu, ts) && p.from == pos && psc < pos < p.to <= end
             && p.to <= pos + mtu && (p.to < end ==> p.to == pos + mtu)
    requires p.followOn && !p.marker && p.timestamp == ts
    ensures Sent(pieces, packets + [p], psc, p.to, end, mtu, ts)
  {
    assert pieces + packets != [];
    TilingMore(pieces + packets, pos, mtu, ts, p);
    StretchMore(packets, psc, end, mtu, p);
    hide Tiling, Stretch, NoneMarked;
    assert pieces + packets + [p] == pieces + (packets + [p]);
  }

  /** The follow-on packets of a stretch whose first packet is full. */
  method FollowOnPackets(timestamp: nat, psc: nat, end: nat, mtu: nat, ghost pieces: seq<Piece>,
      ghost first: seq<Piece>)
    returns (more: seq<Piece>)
    requires 0 < mtu && psc + mtu < end && Sent(pieces, first, psc, psc + mtu, end, mtu, timestamp)
    ensures Sent(pieces, first + more, psc, end, end, mtu, timestamp)
  {
    hide *;
    var len := end - psc;
    var num := RoundUp(len, mtu);
    RoundedUp(len, mtu);
    var pos, i := psc + mtu, 1;
    more := [];
    assert first + more == first;
    while i < num
      invariant 1 <= i <= num && psc < pos <= end
      invariant pos == if Times(i, mtu) < len then psc + Times(i, mtu) else end
      invariant Sent(pieces, first + more, psc, pos, end, mtu, timestamp)
    {
      NextMultiple(i, num, mtu, len);
      var from := pos;
      pos := if pos + mtu < end then pos + mtu else end;
      var packet := Piece(true, from, pos, timestamp, false);
      SentMore(pieces, first + more, psc, from, end, mtu, timestamp, packet);
      assert first + more + [packet] == first + (more + [packet]);
      more := more + [packet];
      i := i + 1;
    }
  }

  /** The packets of one stretch of the frame, from a start code to the next: P is set in the frame itself. */
  method GeneratePackets(frame: array<byte>, timestamp: nat, psc: nat, end: nat, lastPacket: bool, mtu: nat,
      ghost pieces: seq<Piece>)
    returns (packets: seq<Piece>)
    requires 0 < mtu && psc < end <= frame.Length && Tiling(pieces, psc, mtu, timestamp) && NoneMarked(pieces)
    modifies frame
    ensures frame[..] == old(frame[..])[psc := SetP(old(frame[psc]))]
    ensures packets != [] && Stretch(packets, psc, end, mtu) && Tiling(pieces + packets, end, mtu, timestamp)
    ensures NoneMarked((pieces + packets)[..|pieces + packets| - 1]) && packets[|packets| - 1].marker == lastPacket
  {
    hide *;
    frame[psc] := SetP(frame[psc]);
    ghost var after := frame[..];
    assert after == old(frame[..])[psc := SetP(old(frame[psc]))];
    var len := end - psc;
    packets := [Piece(false, psc, if len > mtu then psc + mtu else end, timestamp, false)];
    ghost var packet0 := packets[0];
    assert packets == [packet0];
    SentStarts(pieces, packet0, psc, end, mtu, timestamp);
    if len > mtu {
      var more := FollowOnPackets(timestamp, psc, end, mtu, pieces, packets);
      packets := packets + more;
    }
    MarkLast(pieces, packets, psc, end, mtu, timestamp, lastPacket);
    var n := |packets| - 1;
    packets := packets[n := packets[n].(marker := lastPacket)];
  }

  /** Two zero bytes, where a picture or a group of blocks may start. */
  predicate ZerosAt(frame: seq<byte>, i: nat) {
    i + 1 < |frame| && frame[i] == 0 && frame[i + 1] == 0
  }

  lemma ZerosMean(frame: seq<byte>, i: nat)
    ensures ZerosAt(frame, i) <==> i + 2 <= |frame| && frame[i..i + 2] == [0, 0]
  {
    if i + 2 <= |frame| {
      assert frame[i..i + 2] == [frame[i], frame[i + 1]];
    }
  }

  /** The pairs of bytes that the search looks at: every other one, so many of them. */
  predicate Examined(frame: seq<byte>, begin: nat, packetSize: int, i: nat) {
    begin <= i && i + 1 < |frame| && (i - begin) % 2 == 0 && (i - begin) / 2 + 1 < packetSize
  }

  /** What the search finds: the last zero pair that it looks at. */
  ghost predicate IsFound(frame: seq<byte>, begin: nat, packetSize: int, psc: Option<nat>) {
    match psc
    case None => forall i: nat :: Examined(frame, begin, packetSize, i) ==> !ZerosAt(frame, i)
    case Some(n) =>
      && Examined(frame, begin, packetSize, n) && ZerosAt(frame, n)
      && forall i: nat :: i > n && Examined(frame, begin, packetSize, i) ==> !ZerosAt(frame, i)
  }

  /** What the search is documented to find: the last zero pair just below the packet size. */
  ghost predicate IsDocumented(frame: seq<byte>, begin: nat, packetSize: int, psc: Option<nat>) {
    match psc
    case None => forall i: nat :: begin <= i < begin + packetSize ==> !ZerosAt(frame, i)
    case Some(n) =>
      && begin <= n < begin + packetSize && ZerosAt(frame, n)
      && forall i: nat :: n < i < begin + packetSize ==> !ZerosAt(frame, i)
  }

  /**
   * From the packet size up to twice as far no zero pair stands at an even distance, and each zero pair at an odd
   * distance below it is followed by one at an even distance below it.
   */
  ghost predicate ZerosAtEvenDistances(frame: seq<byte>, begin: nat, packetSize: int) {
    && (forall i: nat :: begin + packetSize <= i <= begin + 2 * packetSize - 4 && (i - begin) % 2 == 0 ==>
      !ZerosAt(frame, i))
    && (forall i: nat :: begin <= i < begin + packetSize && (i - begin) % 2 == 1 && ZerosAt(frame, i) ==>
          exists j: nat :: i < j < begin + packetSize && (j - begin) % 2 == 0 && ZerosAt(frame, j))
  }

  /** The search does what its comment says exactly when the zero pairs lie so. */
  lemma FoundIsDocumentedIff(frame: seq<byte>, begin: nat, packetSize: int, psc: Option<nat>)
    requires packetSize >= 2 && IsFound(frame, begin, packetSize, psc)
    ensures IsDocumented(frame, begin, packetSize, psc) <==> ZerosAtEvenDistances(frame, begin, packetSize)
  {
    forall i: nat | ZerosAt(frame, i)
      ensures Examined(frame, begin, packetSize, i) <==>
              begin <= i <= begin + 2 * packetSize - 4 && (i - begin) % 2 == 0
    {
    }
  }

  /** A packet size of one examines nothing, and so misses a zero pair right at the start. */
  lemma SinglePacketSize(frame: seq<byte>, begin: nat, packetSize: int, psc: Option<nat>)
    requires packetSize <= 1 && IsFound(frame, begin, packetSize, psc)
    ensures psc.None? && (IsDocumented(frame, begin, packetSize, psc) <==> packetSize < 1 || !ZerosAt(frame, begin))
  {
  }

  /** A zero pair at an odd distance is missed. */
  lemma OddPairIsMissed(psc: Option<nat>)
    requires IsFound([1, 0, 0, 1], 0, 100, psc)
    ensures psc == None && !IsDocumented([1, 0, 0, 1], 0, 100, psc)
  {
    assert ZerosAt([1, 0, 0, 1], 1);
  }

  /** A zero pair beyond the packet size is taken. */
  lemma LatePairIsTaken(psc: Option<nat>)
    requires IsFound([1, 1, 1, 1, 0, 0, 1], 0, 4, psc)
    ensures psc == Some(4) && !IsDocumented([1, 1, 1, 1, 0, 0, 1], 0, 4, psc)
  {
    var frame: seq<byte> := [1, 1, 1, 1, 0, 0, 1];
    assert Examined(frame, 0, 4, 4) && ZerosAt(frame, 4);
  }

  /** In the middle of the search: what it would have found if it stopped there. */
  ghost predicate SearchedTo(frame: seq<byte>, begin: nat, packetSize: int, psc: Option<nat>, at: nat) {
    match psc
    case None => forall i: nat :: i < at && Examined(frame, begin, packetSize, i) ==> !ZerosAt(frame, i)
    case Some(n) =>
      && n < at && Examined(frame, begin, packetSize, n) && ZerosAt(frame, n)
      && forall i: nat :: n < i < at && Examined(frame, begin, packetSize, i) ==> !ZerosAt(frame, i)
  }

  lemma SearchOneMore(frame: seq<byte>, begin: nat, packetSize: int, psc: Option<nat>, at: nat, psc': Option<nat>)
    requires SearchedTo(frame, begin, packetSize, psc, at) && Examined(frame, begin, packetSize, at)
    requires psc' == if ZerosAt(frame, at) then Some(at) else psc
    ensures SearchedTo(frame, begin, packetSize, psc', at + 2)
  {
    assert !Examined(frame, begin, packetSize, at + 1);
  }

  lemma SearchEnds(frame: seq<byte>, begin: nat, packetSize: int, psc: Option<nat>, at: nat)
    requires SearchedTo(frame, begin, packetSize, psc, at) && at >= begin && (at - begin) % 2 == 0
    requires at + 1 >= |frame| || (at - begin) / 2 + 1 >= packetSize
    ensures IsFound(frame, begin, packetSize, psc)
  {
  }

  /** The last of the examined pairs that is zero. Pairs are two bytes apart, so it may lie beyond the packet size. */
  method GetPsc(frame: array<byte>, begin: nat, end: nat, packetSize: int) returns (psc: Option<nat>)
    requires end == frame.Length
    ensures IsFound(frame[..], begin, packetSize, psc)
    ensures psc.Some? ==> begin <= psc.value && psc.value + 2 <= end && ZerosAt(frame[..], psc.value)
    ensures packetSize >= 2 ==>
      (IsDocumented(frame[..], begin, packetSize, psc) <==> ZerosAtEvenDistances(frame[..], begin, packetSize))
  {
    hide ZerosAtEvenDistances, IsDocumented;
    psc := None;
    if begin == end {
      if packetSize >= 2 {
        FoundIsDocumentedIff(frame[..], begin, packetSize, psc);
      }
      return;
    }
    var i, p := 1, begin + 1;
    while p < end && i < packetSize
      invariant i >= 1 && p == begin + 2 * i - 1
      invariant SearchedTo(frame[..], begin, packetSize, psc, p - 1)
      decreases end - p
    {
      ghost var psc0 := psc;
      if frame[p - 1] == 0 && frame[p] == 0 {
        psc := Some(p - 1);
      }
      SearchOneMore(frame[..], begin, packetSize, psc0, p - 1, psc);
      p := p + 2;
      i := i + 1;
    }
    SearchEnds(frame[..], begin, packetSize, psc, p - 1);
    if packetSize >= 2 {
      FoundIsDocumentedIff(frame[..], begin, packetSize, psc);
    }
  }

  lemma FaithfulStays(pieces: seq<Piece>, upto: nat, mtu: nat, ts: nat, frame: seq<byte>, buffer: seq<byte>, at: nat,
      b: byte)
    requires Tiling(pieces, upto, mtu, ts) && AllFaithful(pieces, mtu, frame, buffer) && upto <= at < |buffer|
    ensures AllFaithful(pieces, mtu, frame, buffer[at := b])
    decreases |pieces|
  {
    if pieces != [] {
      var n := |pieces| - 1;
      FaithfulStays(pieces[..n], pieces[n].from, mtu, ts, frame, buffer, at, b);
      FaithfulOneStays(pieces[n], mtu, frame, buffer, at, b);
      hide Faithful;
      assert forall k :: 0 <= k < n ==> pieces[..n][k] == pieces[k];
    }
  }

  lemma FaithfulOneStays(p: Piece, mtu: nat, frame: seq<byte>, buffer: seq<byte>, at: nat, b: byte)
    requires Faithful(p, mtu, frame, buffer) && p.to <= at < |buffer|
    ensures Faithful(p, mtu, frame, buffer[at := b])
  {
    assert buffer[at := b][p.from..p.to] == buffer[p.from..p.to];
    assert buffer[at := b][p.from + 1..p.to] == buffer[p.from + 1..p.to];
  }

  /** A stretch that starts with zeros is faithful once its first byte has P set. */
  lemma StretchFaithful(packets: seq<Piece>, psc: nat, end: nat, mtu: nat, frame: seq<byte>, buffer: seq<byte>)
    requires Stretch(packets, psc, end, mtu) && ZerosAt(frame, psc) && psc + 2 <= end <= |frame| == |buffer|
    requires buffer[psc] == 4 && buffer[psc + 1..] == frame[psc + 1..]
    ensures AllFaithful(packets, mtu, frame, buffer)
  {
    forall k | 0 <= k < |packets|
      ensures Faithful(packets[k], mtu, frame, buffer)
    {
      var from, to := packets[k].from, packets[k].to;
      TailEqual(buffer, frame, psc + 1);
    }
  }

  lemma TailEqual(a: seq<byte>, b: seq<byte>, n: nat)
    requires n <= |a| == |b| && a[n..] == b[n..]
    ensures forall i :: n <= i < |a| ==> a[i] == b[i]
  {
    forall i | n <= i < |a|
      ensures a[i] == b[i]
    {
      assert a[n..][i - n] == b[n..][i - n];
    }
  }

  lemma FaithfulMore(pieces: seq<Piece>, packets: seq<Piece>, mtu: nat, frame: seq<byte>, buffer: seq<byte>)
    requires AllFaithful(pieces, mtu, frame, buffer) && AllFaithful(packets, mtu, frame, buffer)
    ensures AllFaithful(pieces + packets, mtu, frame, buffer)
  {
    hide Faithful;
  }

  /** One more stretch: what was faithful stays so, and the new packets are. */
  lemma StretchAdded(pieces: seq<Piece>, packets: seq<Piece>, psc: nat, end: nat, mtu: nat, ts: nat,
                     frame: seq<byte>, before: seq<byte>, after: seq<byte>)
    requires Tiling(pieces, psc, mtu, ts) && AllFaithful(pieces, mtu, frame, before) && Stretch(packets, psc, end, mtu)
    requires ZerosAt(frame, psc) && psc + 2 <= end <= |frame| == |before| && before[psc..] == frame[psc..]
    requires after == before[psc := SetP(before[psc])]
    ensures AllFaithful(pieces + packets, mtu, frame, after)
  {
    hide AllFaithful, Tiling, Stretch;
    FaithfulStays(pieces, psc, mtu, ts, frame, before, psc, SetP(before[psc]));
    assert before[psc] == before[psc..][0] == frame[psc..][0] == 0;
    assert SetP(0) == 4;
    assert after[psc + 1..] == before[psc..][1..] == frame[psc..][1..] == frame[psc + 1..];
    StretchFaithful(packets, psc, end, mtu, frame, after);
    FaithfulMore(pieces, packets, mtu, frame, after);
  }

  // ----- Where a frame is split -----

  /** Where the packets that are not follow-on packets start. */
  function Starts(pieces: seq<Piece>): seq<nat> {
    if pieces == [] then []
    else
      var n := |pieces| - 1;
      Starts(pieces[..n]) + if pieces[n].followOn then [] else [pieces[n].from]
  }

  lemma {:induction false} OneStart(pieces: seq<Piece>, packets: seq<Piece>, n: nat)
    requires 1 <= n <= |packets| && forall k :: 0 <= k < |packets| ==> (packets[k].followOn <==> k > 0)
    ensures Starts(pieces + packets[..n]) == Starts(pieces) + [packets[0].from]
  {
    var all := pieces + packets[..n];
    assert all[|all| - 1] == packets[n - 1] && all[..|all| - 1] == pieces + packets[..n - 1];
    if n == 1 {
      assert pieces + packets[..0] == pieces;
    } else {
      OneStart(pieces, packets, n - 1);
    }
  }

  /** From the first byte on, each start but the first is what the search finds two bytes behind the one before. */
  ghost predicate Searched(frame: seq<byte>, starts: seq<nat>, next: nat, mtu: nat) {
    if starts == [] then next == 0
    else
      var n := |starts| - 1;
      IsFound(frame, starts[n] + 2, mtu, Some(next)) && Searched(frame, starts[..n], starts[n], mtu)
  }

  /** And behind the last one it finds nothing. */
  ghost predicate SplitWhereFound(frame: seq<byte>, starts: seq<nat>, mtu: nat) {
    starts != [] &&
    var n := |starts| - 1;
    IsFound(frame, starts[n] + 2, mtu, None) && Searched(frame, starts[..n], starts[n], mtu)
  }

  lemma FoundInTail(a: seq<byte>, b: seq<byte>, n: nat, mtu: nat, psc: Option<nat>)
    requires n <= |a| == |b| && a[n..] == b[n..] && IsFound(a, n + 2, mtu, psc)
    ensures IsFound(b, n + 2, mtu, psc)
  {
    TailEqual(a, b, n);
    assert forall i: nat :: n <= i ==> (ZerosAt(a, i) <==> ZerosAt(b, i));
  }

  /** A packet that a follow-on packet comes after is full. */
  ghost predicate FullBeforeFollowOn(pieces: seq<Piece>, mtu: nat) {
    forall k :: 0 <= k < |pieces| - 1 && pieces[k + 1].followOn ==> pieces[k].to - pieces[k].from == mtu
  }

  lemma StretchSplits(pieces: seq<Piece>, packets: seq<Piece>, psc: nat, end: nat, mtu: nat)
    requires Stretch(packets, psc, end, mtu) && FullBeforeFollowOn(pieces, mtu)
    ensures Starts(pieces + packets) == Starts(pieces) + [psc] && FullBeforeFollowOn(pieces + packets, mtu)
  {
    OneStart(pieces, packets, |packets|);
    assert packets[..|packets|] == packets;
    var all := pieces + packets;
    assert !all[|pieces|].followOn;
    forall k | 0 <= k < |all| - 1 && all[k + 1].followOn
      ensures all[k].to - all[k].from == mtu
    {
      if k >= |pieces| {
        assert all[k] == packets[k - |pieces|] && all[k + 1] == packets[k - |pieces| + 1];
      } else {
        assert all[k] == pieces[k] && all[k + 1] == pieces[k + 1];
      }
    }
  }

  /** One more start. */
  lemma SearchedMore(frame: seq<byte>, starts: seq<nat>, start: nat, next: Option<nat>, mtu: nat)
    requires Searched(frame, starts, start, mtu) && IsFound(frame, start + 2, mtu, next)
    ensures next.Some? ==> Searched(frame, starts + [start], next.value, mtu)
    ensures next.None? ==> SplitWhereFound(frame, starts + [start], mtu)
  {
    assert (starts + [start])[..|starts|] == starts;
  }

  lemma NothingSearched(frame: seq<byte>, mtu: nat)
    ensures Searched(frame, Starts([]), 0, mtu) && FullBeforeFollowOn([], mtu)
  {
  }

  ghost predicate StartsWithZeros(frame: seq<byte>) {
    ZerosAt(frame, 0)
  }

  /**
   * Splitting a frame at zero pairs and into follow-on packets. The packets cut up the frame in order, none larger
   * than the mtu beside a follow-on header; of a frame that starts with zeros, the receiver gets the frame exactly when
   * the mtu allows headers.
   */
  method SplitAndSend(frame: array<byte>, mtu: nat, timestamp: nat) returns (pieces: seq<Piece>)
    requires 0 < mtu && 0 < frame.Length
    modifies frame
    ensures pieces != [] && Tiling(pieces, frame.Length, mtu, timestamp)
    ensures NoneMarked(pieces[..|pieces| - 1]) && pieces[|pieces| - 1].marker
    ensures SplitWhereFound(old(frame[..]), Starts(pieces), mtu) && FullBeforeFollowOn(pieces, mtu)
    ensures StartsWithZeros(old(frame[..])) ==>
      && AllFaithful(pieces, mtu, old(frame[..]), frame[..])
      && (ReceiveAll(None, pieces, mtu, old(frame[..]), frame[..]) == (None, [old(frame[..])]) <==> mtu >= 2)
  {
    hide *;
    ghost var whole := frame[..];
    ghost var zeros := StartsWithZeros(whole);
    var lastpsc := 0;
    pieces := [];
    NothingSent(mtu, timestamp, whole, frame[..]);
    NothingSearched(whole, mtu);
    while true
      invariant Searched(whole, Starts(pieces), lastpsc, mtu) && FullBeforeFollowOn(pieces, mtu)
      invariant lastpsc < frame.Length && frame[..][lastpsc..] == whole[lastpsc..]
      invariant Tiling(pieces, lastpsc, mtu, timestamp) && NoneMarked(pieces)
      invariant zeros ==> ZerosAt(whole, lastpsc) && AllFaithful(pieces, mtu, whole, frame[..])
      decreases frame.Length - lastpsc
    {
      ghost var before := frame[..];
      var psc := GetPsc(frame, lastpsc + 2, frame.Length, mtu);
      FoundInTail(before, whole, lastpsc, mtu, psc);
      SearchedMore(whole, Starts(pieces), lastpsc, psc, mtu);
      if psc.None? {
        break;
      }
      var packets := GeneratePackets(frame, timestamp, lastpsc, psc.value, false, mtu, pieces);
      ZerosIn(before, whole, lastpsc, psc.value);
      TailStays(before, whole, lastpsc, SetP(before[lastpsc]), psc.value);
      AllUnmarked(pieces, packets);
      StretchSplits(pieces, packets, lastpsc, psc.value, mtu);
      if zeros {
        StretchAdded(pieces, packets, lastpsc, psc.value, mtu, timestamp, whole, before, frame[..]);
      }
      pieces := pieces + packets;
      lastpsc := psc.value;
    }
    ghost var before := frame[..];
    assert SplitWhereFound(whole, Starts(pieces) + [lastpsc], mtu);
    var packets := GeneratePackets(frame, timestamp, lastpsc, frame.Length, true, mtu, pieces);
    StretchSplits(pieces, packets, lastpsc, frame.Length, mtu);
    if zeros {
      ZerosRoom(whole, lastpsc);
      StretchAdded(pieces, packets, lastpsc, frame.Length, mtu, timestamp, whole, before, frame[..]);
      FrameArrives(pieces + packets, mtu, timestamp, whole, frame[..]);
    }
    pieces := pieces + packets;
  }

  lemma ZerosRoom(frame: seq<byte>, i: nat)
    requires ZerosAt(frame, i)
    ensures i + 2 <= |frame|
  {
  }

  /** Zeros found in the part that was not written yet are zeros of the frame. */
  lemma ZerosIn(buffer: seq<byte>, frame: seq<byte>, n: nat, i: nat)
    requires n <= |buffer| == |frame| && buffer[n..] == frame[n..] && n <= i && ZerosAt(buffer, i)
    ensures ZerosAt(frame, i)
  {
    TailEqual(buffer, frame, n);
  }

  lemma TailStays(buffer: seq<byte>, frame: seq<byte>, at: nat, b: byte, n: nat)
    requires at < |buffer| == |frame| && buffer[at..] == frame[at..] && at < n <= |frame|
    ensures buffer[at := b][n..] == frame[n..]
  {
    TailEqual(buffer, frame, at);
  }

  lemma AllUnmarked(pieces: seq<Piece>, packets: seq<Piece>)
    requires packets != [] && NoneMarked((pieces + packets)[..|pieces + packets| - 1]) && !packets[|packets| - 1].marker
    ensures NoneMarked(pieces + packets)
  {
    var all := pieces + packets;
    assert forall k :: 0 <= k < |all| - 1 ==> all[..|all| - 1][k] == all[k];
  }

  lemma NothingSent(mtu: nat, ts: nat, frame: seq<byte>, buffer: seq<byte>)
    ensures Tiling([], 0, mtu, ts) && NoneMarked([]) && AllFaithful([], mtu, frame, buffer)
    ensures StartsWithZeros(frame) ==> ZerosAt(frame, 0)
  {
  }

  /** A packet with P set is at most mtu bytes, a follow-on packet at most mtu bytes and its header. */
  lemma {:induction false} WireSizes(pieces: seq<Piece>, upto: nat, mtu: nat, ts: nat, buffer: seq<byte>, k: nat)
    requires Tiling(pieces, upto, mtu, ts) && upto <= |buffer| && k < |pieces|
    ensures pieces[k].from < pieces[k].to <= upto
    ensures 0 < |Wire(pieces[k], buffer)| <= if pieces[k].followOn then mtu + 2 else mtu
  {
    var n := |pieces| - 1;
    if k < n {
      WireSizes(pieces[..n], pieces[n].from, mtu, ts, buffer, k);
    }
  }

  /** Sending a frame to a decoder that has nothing pending. */
  method Transmit(frame: array<byte>, mtu: nat, timestamp: nat, decoder: Decoder) returns (frames: seq<seq<byte>>)
    requires 0 < mtu && StartsWithZeros(frame[..]) && decoder.input == None
    modifies frame, decoder
    ensures (decoder.input, frames) == (None, [old(frame[..])]) <==> mtu >= 2
  {
    hide *;
    ghost var whole := frame[..];
    ZerosMeanBytes(whole);
    var pieces := SplitAndSend(frame, mtu, timestamp);
    ghost var buffer := frame[..];
    frames := [];
    NothingReceived(mtu, whole, buffer);
    for k := 0 to |pieces|
      invariant frame[..] == buffer && AllFaithful(pieces[..k], mtu, whole, buffer)
      invariant (decoder.input, frames) == ReceiveAll(None, pieces[..k], mtu, whole, buffer)
      modifies decoder
    {
      var p := pieces[k];
      FaithfulAt(pieces, mtu, whole, buffer, k);
      ReceiveNext(None, pieces, mtu, whole, buffer, k);
      var wire := (if p.followOn then [0, 0] else []) + frame[p.from..p.to];
      WireIs(p, buffer, wire);
      var out := decoder.ProcessPacket(wire, p.marker);
      frames := frames + if out.Some? then [out.value] else [];
    }
    assert pieces[..|pieces|] == pieces;
  }

  lemma ZerosMeanBytes(frame: seq<byte>)
    requires StartsWithZeros(frame)
    ensures |frame| >= 2
  {
  }

  lemma NothingReceived(mtu: nat, frame: seq<byte>, buffer: seq<byte>)
    ensures AllFaithful([], mtu, frame, buffer) && ReceiveAll(None, [], mtu, frame, buffer) == (None, [])
  {
  }

  lemma WireIs(p: Piece, buffer: seq<byte>, wire: seq<byte>)
    requires p.from <= p.to <= |buffer| && wire == (if p.followOn then [0, 0] else []) + buffer[p.from..p.to]
    ensures wire == Wire(p, buffer)
  {
  }

  lemma FaithfulAt(pieces: seq<Piece>, mtu: nat, frame: seq<byte>, buffer: seq<byte>, k: nat)
    requires AllFaithful(pieces, mtu, frame, buffer) && k < |pieces|
    ensures pieces[k].from < pieces[k].to <= |buffer| && Receivable(Wire(pieces[k], buffer))
    ensures AllFaithful(pieces[..k], mtu, frame, buffer) && AllFaithful(pieces[..k + 1], mtu, frame, buffer)
  {
    FaithfulArrives(pieces[k], mtu, frame, buffer);
  }

  lemma ReceiveNext(input: Option<seq<byte>>, pieces: seq<Piece>, mtu: nat, frame: seq<byte>, buffer: seq<byte>, k: nat)
    requires k < |pieces| && AllFaithful(pieces[..k], mtu, frame, buffer)
             && AllFaithful(pieces[..k + 1], mtu, frame, buffer)
    requires pieces[k].from <= pieces[k].to <= |buffer| && Receivable(Wire(pieces[k], buffer))
    ensures var (before, frames) := ReceiveAll(input, pieces[..k], mtu, frame, buffer);
            var (after, out) := Accumulate(before, Wire(pieces[k], buffer), pieces[k].marker);
            ReceiveAll(input, pieces[..k + 1], mtu, frame, buffer) ==
              (after, frames + if out.Some? then [out.value] else [])
  {
    hide AllFaithful, Receivable, Accumulate, Wire;
    assert pieces[..k + 1][..k] == pieces[..k];
  }

  // ----- MPEG-4 and Snow: no payload header -----

  /** What packets without headers carry, one after another. */
  ghost function Contents(pieces: seq<Piece>, frame: seq<byte>): seq<byte>
    requires forall k :: 0 <= k < |pieces| ==> pieces[k].from <= pieces[k].to <= |frame|
  {
    if pieces == [] then [] else Contents(pieces[..|pieces| - 1], frame) + Wire(pieces[|pieces| - 1], frame)
  }

  lemma {:induction false} TilesAreContents(pieces: seq<Piece>, upto: nat, mtu: nat, ts: nat, frame: seq<byte>)
    requires Tiling(pieces, upto, mtu, ts) && upto <= |frame| && forall k :: 0 <= k < |pieces| ==> !pieces[k].followOn
    ensures forall k :: 0 <= k < |pieces| ==> pieces[k].from < pieces[k].to <= |frame|
    ensures Contents(pieces, frame) == frame[..upto]
  {
    if pieces != [] {
      var n := |pieces| - 1;
      TilesAreContents(pieces[..n], pieces[n].from, mtu, ts, frame);
      assert forall k :: 0 <= k < n ==> pieces[..n][k] == pieces[k];
      Slices(frame, pieces[n].from, upto);
    }
  }

  /** Plain pieces of at most mtu bytes that add up to the frame, the last one marked. */
  method Mpeg4FragmentAndSend(frame: seq<byte>, mtu: nat, timestamp: nat) returns (pieces: seq<Piece>)
    requires 0 < mtu && frame != []
    ensures pieces != [] && Tiling(pieces, |frame|, mtu, timestamp) && forall k :: 0 <= k < |pieces| ==>
            !pieces[k].followOn
    ensures forall k :: 0 <= k < |pieces| ==> pieces[k].from < pieces[k].to <= |frame|
    ensures Contents(pieces, frame) == frame
    ensures NoneMarked(pieces[..|pieces| - 1]) && pieces[|pieces| - 1].marker
    ensures forall k :: 0 <= k < |pieces| - 1 ==> pieces[k].to - pieces[k].from == mtu
  {
    hide Wire, Contents;
    pieces := [];
    var rptr := 0;
    while rptr < |frame|
      invariant rptr <= |frame| && (pieces == [] <==> rptr == 0)
      invariant Tiling(pieces, rptr, mtu, timestamp) && NoneMarked(pieces)
      invariant forall k :: 0 <= k < |pieces| ==> !pieces[k].followOn
      invariant forall k :: 0 <= k < |pieces| - (if rptr < |frame| then 0 else 1) ==>
                  pieces[k].to - pieces[k].from == mtu
    {
      var len := if mtu < |frame| - rptr then mtu else |frame| - rptr;
      var packet := Piece(false, rptr, rptr + len, timestamp, false);
      TilingMore(pieces, rptr, mtu, timestamp, packet);
      pieces := pieces + [packet];
      rptr := rptr + len;
    }
    var n := |pieces| - 1;
    ghost var before := pieces;
    pieces := pieces[n := pieces[n].(marker := true)];
    assert pieces[..n] == before[..n];
    TilesAreContents(pieces, |frame|, mtu, timestamp, frame);
    assert frame[..|frame|] == frame;
  }
}
