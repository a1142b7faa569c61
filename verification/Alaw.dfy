/** Framing of A-law packets (alaw.c); what a sample becomes is a parameter. */
module Alaw {
  import opened Octets
  import opened Powers
  import opened Bufferizers

  datatype Voice = Voice(payload: seq<byte>, timestamp: nat)

  type Compressor = (byte, byte) -> byte

  /** Bytes of PCM per packet for a packet time in milliseconds. */
  function SizeOfPcm(ptime: int): (n: nat)
    ensures 160 <= n <= 2240 && n % 160 == 0
    ensures 10 <= ptime < 150 ==> n == 160 * (ptime / 10)
    ensures (ptime < 10 ==> n == 320) && (ptime >= 150 ==> n == 2240)
  {
    var framePerPacket := if ptime >= 10 then ptime / 10 else 2;
    160 * if framePerPacket > 14 then 14 else framePerPacket
  }

  function Compressed(pcm: seq<byte>, f: Compressor): seq<byte> {
    seq(|pcm| / 2, i requires 0 <= i < |pcm| / 2 => f(pcm[2 * i], pcm[2 * i + 1]))
  }

  function Later(ts: nat, n: nat): nat {
    (ts + n / 2) % 0x1_0000_0000
  }

  /** A PCM stream cut into packets of n bytes. */
  function Framed(pcm: seq<byte>, n: nat, ts: nat, f: Compressor): seq<Voice>
    requires n > 0
  {
    if |pcm| < n then [] else [Voice(Compressed(pcm[..n], f), ts)] + Framed(pcm[n..], n, Later(ts, n), f)
  }

  function Leftover(pcm: seq<byte>, n: nat): seq<byte>
    requires n > 0
  {
    if |pcm| < n then pcm else Leftover(pcm[n..], n)
  }

  function NextTimestamp(pcm: seq<byte>, n: nat, ts: nat): nat
    requires n > 0
  {
    if |pcm| < n then ts else NextTimestamp(pcm[n..], n, Later(ts, n))
  }

  lemma OnePacketLess(size: nat, n: nat)
    requires 0 < n <= size
    ensures size / n == (size - n) / n + 1 && size % n == (size - n) % n
  {
    var q, r := (size - n) / n, (size - n) % n;
    assert size - n == q * n + r;
    assert (q + 1) * n == q * n + n;
    DivModUnique(size, n, q + 1, r);
  }

  lemma RemainderLater(a: nat, b: nat)
    ensures (a % 0x1_0000_0000 + b) % 0x1_0000_0000 == (a + b) % 0x1_0000_0000
  {
    var m := 0x1_0000_0000;
    var q := (a % m + b) / m;
    DivModUnique(a + b, m, a / m + q, (a % m + b) % m);
  }

  lemma LaterAgain(ts: nat, n: nat, k: nat)
    requires k > 0
    ensures Later(ts, n) < 0x1_0000_0000
    ensures (Later(ts, n) + (k - 1) * (n / 2)) % 0x1_0000_0000 == (ts + k * (n / 2)) % 0x1_0000_0000
  {
    var step := n / 2;
    assert k * step == step + (k - 1) * step;
    RemainderLater(ts + step, (k - 1) * step);
  }

  /** There are as many packets as the stream has whole times n bytes, and the rest is left over. */
  lemma {:induction false} PacketCount(pcm: seq<byte>, n: nat, ts: nat, f: Compressor)
    requires n > 0 && ts < 0x1_0000_0000
    ensures |Framed(pcm, n, ts, f)| == |pcm| / n && Leftover(pcm, n) == pcm[|pcm| - |pcm| % n..]
    ensures NextTimestamp(pcm, n, ts) == (ts + |pcm| / n * (n / 2)) % 0x1_0000_0000
  {
    hide *;
    if |pcm| < n {
      FramesEnd(pcm, n, ts, f);
      DivModUnique(|pcm|, n, 0, |pcm|);
    } else {
      OnePacketLess(|pcm|, n);
      LaterAgain(ts, n, |pcm| / n);
      FrameTaken(pcm, n, ts, f);
      PacketCount(pcm[n..], n, Later(ts, n), f);
    }
  }

  lemma Products(k: nat, n: nat)
    ensures k * n >= 0 && (k > 0 ==> (k - 1) * n == k * n - n >= 0) && (k == 0 ==> k * n == 0 && k * (n / 2) == 0)
  {
  }

  lemma FirstPacket(pcm: seq<byte>, f: Compressor, i: nat)
    requires 2 * i + 1 < |pcm|
    ensures |Compressed(pcm, f)| == |pcm| / 2 && Compressed(pcm, f)[i] == f(pcm[2 * i], pcm[2 * i + 1])
  {
  }

  /** The k-th packet has the time of its first sample, and its i-th byte is the compressed i-th sample of its own. */
  lemma {:induction false} PacketAt(pcm: seq<byte>, n: nat, ts: nat, f: Compressor, k: nat, i: nat)
    requires n > 0 && ts < 0x1_0000_0000 && k * n + n <= |pcm| && 2 * i + 1 < n
    ensures k < |Framed(pcm, n, ts, f)| && 0 <= k * n
    ensures var p := Framed(pcm, n, ts, f)[k];
            && p.timestamp == (ts + k * (n / 2)) % 0x1_0000_0000 && |p.payload| == n / 2
            && p.payload[i] == f(pcm[k * n + 2 * i], pcm[k * n + 2 * i + 1])
    decreases k
  {
    hide Framed, Compressed, Later;
    Products(k, n);
    FrameTaken(pcm, n, ts, f);
    if k > 0 {
      LaterAgain(ts, n, k);
      PacketAt(pcm[n..], n, Later(ts, n), f, k - 1, i);
      assert pcm[n..][(k - 1) * n + 2 * i] == pcm[k * n + 2 * i];
      assert pcm[n..][(k - 1) * n + 2 * i + 1] == pcm[k * n + 2 * i + 1];
    } else {
      FirstPacket(pcm[..n], f, i);
    }
  }

  /** Cutting a stream piece by piece gives the packets of the whole. */
  lemma {:induction false} FramedPiecewise(a: seq<byte>, b: seq<byte>, n: nat, ts: nat, f: Compressor)
    requires n > 0
    ensures Framed(a + b, n, ts, f) == Framed(a, n, ts, f) + Framed(Leftover(a, n) + b, n, NextTimestamp(a, n, ts), f)
    ensures Leftover(a + b, n) == Leftover(Leftover(a, n) + b, n)
    ensures NextTimestamp(a + b, n, ts) == NextTimestamp(Leftover(a, n) + b, n, NextTimestamp(a, n, ts))
  {
    hide Compressed, Later;
    if |a| >= n {
      FramedPiecewise(a[n..], b, n, Later(ts, n), f);
      assert (a + b)[..n] == a[..n] && (a + b)[n..] == a[n..] + b;
    }
  }

  class Encoder {
    const bz: Bufferizer
    var ptime: int
    var ts: nat

    constructor ()
      ensures bz.Valid() && bz.Contents() == [] && ptime == 0 && ts == 0 && fresh(bz)
    {
      bz := new Bufferizer();
      ptime, ts := 0, 0;
    }

    /** The packets depend on the bytes that came in, not on how they were cut into messages. */
    method Process(input: seq<Message>, f: Compressor) returns (out: seq<Voice>)
      requires bz.Valid()
      modifies this, bz
      ensures bz.Valid() && ptime == old(ptime)
      ensures var pcm, n := old(bz.Contents()) + Bytes(input), SizeOfPcm(ptime);
              && out == Framed(pcm, n, old(ts), f)
              && bz.Contents() == Leftover(pcm, n) && ts == NextTimestamp(pcm, n, old(ts))
    {
      hide Framed, Leftover, NextTimestamp, Compressed, Later, SizeOfPcm, Bufferizer.Contents, Bufferizer.Valid;
      var size := SizeOfPcm(ptime);
      var buffer := new byte[2240];
      bz.PutFromQueue(input);
      ghost var pcm, left := bz.Contents(), bz.Contents();
      out := [];
      var n := bz.Read(buffer, size);
      while n == size
        invariant bz.Valid() && ptime == old(ptime) && fresh(buffer)
        invariant n == (if size <= |left| then size else 0) && bz.Contents() == left[n..] && buffer[..n] == left[..n]
        invariant Framed(pcm, size, old(ts), f) == out + Framed(left, size, ts, f)
        invariant Leftover(pcm, size) == Leftover(left, size)
        invariant NextTimestamp(pcm, size, old(ts)) == NextTimestamp(left, size, ts)
        decreases |left|
      {
        FrameTaken(left, size, ts, f);
        var o := Compress(buffer, size, f);
        out := out + [Voice(o, ts)];
        ts := Later(ts, size);
        left := bz.Contents();
        n := bz.Read(buffer, size);
      }
      FramesEnd(left, size, ts, f);
      assert out + [] == out && left[0..] == left;
    }
  }

  lemma FrameTaken(pcm: seq<byte>, n: nat, ts: nat, f: Compressor)
    requires 0 < n <= |pcm|
    ensures Framed(pcm, n, ts, f) == [Voice(Compressed(pcm[..n], f), ts)] + Framed(pcm[n..], n, Later(ts, n), f)
    ensures Leftover(pcm, n) == Leftover(pcm[n..], n)
            && NextTimestamp(pcm, n, ts) == NextTimestamp(pcm[n..], n, Later(ts, n))
  {
  }

  lemma FramesEnd(pcm: seq<byte>, n: nat, ts: nat, f: Compressor)
    requires |pcm| < n
    ensures Framed(pcm, n, ts, f) == [] && Leftover(pcm, n) == pcm && NextTimestamp(pcm, n, ts) == ts
  {
  }

  /** The sample loop. */
  method Compress(buffer: array<byte>, size: nat, f: Compressor) returns (o: seq<byte>)
    requires size <= buffer.Length
    ensures o == Compressed(buffer[..size], f)
  {
    o := [];
    for i := 0 to size / 2
      invariant |o| == i && forall j :: 0 <= j < i ==> o[j] == f(buffer[2 * j], buffer[2 * j + 1])
    {
      o := o + [f(buffer[2 * i], buffer[2 * i + 1])];
    }
  }

  /** Any number of calls, each with any messages: the packets are those of the bytes in order. */
  method ProcessAll(encoder: Encoder, calls: seq<seq<Message>>, f: Compressor) returns (out: seq<Voice>)
    requires encoder.bz.Valid() && |encoder.bz.Contents()| < SizeOfPcm(encoder.ptime)
    modifies encoder, encoder.bz
    ensures encoder.bz.Valid() && encoder.ptime == old(encoder.ptime)
    ensures var pcm, n := old(encoder.bz.Contents()) + AllBytes(calls), SizeOfPcm(encoder.ptime);
            && out == Framed(pcm, n, old(encoder.ts), f)
            && encoder.bz.Contents() == Leftover(pcm, n) && encoder.ts == NextTimestamp(pcm, n, old(encoder.ts))
  {
    hide Framed, Leftover, NextTimestamp, SizeOfPcm, Bufferizer.Contents, Bufferizer.Valid, Bytes, AllBytes;
    out := [];
    ghost var first, n, ts0 := encoder.bz.Contents(), SizeOfPcm(encoder.ptime), encoder.ts;
    FramesEnd(first, n, ts0, f);
    NoBytes(first);
    for i := 0 to |calls|
      invariant encoder.bz.Valid() && encoder.ptime == old(encoder.ptime)
      invariant out == Framed(first + AllBytes(calls[..i]), n, ts0, f)
      invariant encoder.bz.Contents() == Leftover(first + AllBytes(calls[..i]), n)
      invariant encoder.ts == NextTimestamp(first + AllBytes(calls[..i]), n, ts0)
    {
      var more := encoder.Process(calls[i], f);
      FramedPiecewise(first + AllBytes(calls[..i]), Bytes(calls[i]), n, ts0, f);
      OneMoreCall(calls, i);
      assert first + AllBytes(calls[..i]) + Bytes(calls[i]) == first + AllBytes(calls[..i + 1]);
      out := out + more;
    }
    assert calls[..|calls|] == calls;
  }

  function AllBytes(calls: seq<seq<Message>>): seq<byte> {
    if calls == [] then [] else AllBytes(calls[..|calls| - 1]) + Bytes(calls[|calls| - 1])
  }

  lemma NoBytes(first: seq<byte>)
    ensures first + AllBytes([]) == first
  {
  }

  lemma OneMoreCall(calls: seq<seq<Message>>, i: nat)
    requires i < |calls|
    ensures AllBytes(calls[..i + 1]) == AllBytes(calls[..i]) + Bytes(calls[i])
  {
    assert calls[..i + 1][..i] == calls[..i];
  }
}
