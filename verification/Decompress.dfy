/** The reader objects of deflate.js put together, against the format. */
module Decompress {
  import opened Octets
  import opened Powers
  import opened Results
  import opened BitStreams
  import opened Huffman
  import opened Inflate
  import opened Deflate
  import opened StreamRoundTrip
  import opened InflatorObjects

  /** A fresh inflator read to its end gives exactly the expansion of the data; for the encoding of
      any well-formed stream, with anything after it, that is what the stream stands for. */
  method InflateAll(data: seq<byte>) returns (r: Result<seq<Cell>>)
    ensures r == Output(data, START, [])
    ensures forall s: Stream :: ValidStream(s) && HasBits(data, 0, BlocksBits(s, 0, [])) ==> r == Ok(Bytes(Plain(s)))
  {
    hide Output, HasBits, BlocksBits, Plain, Bytes, CodeTree, FixedLengths, FixedDistances, ValidBlocks;
    var reader := new ByteReader(data);
    var inflator := new Inflator(reader);
    r := ReadToEnd(inflator);
    EncodingsExpand(data);
  }

  lemma EncodingsExpand(data: seq<byte>)
    ensures forall s: Stream :: ValidStream(s) && HasBits(data, 0, BlocksBits(s, 0, [])) ==>
      Output(data, START, []) == Ok(Bytes(Plain(s)))
  {
    hide Output, HasBits, BlocksBits, ExpandBlocks, Bytes, ValidBlocks;
    forall s: Stream | ValidStream(s) && HasBits(data, 0, BlocksBits(s, 0, []))
      ensures Output(data, START, []) == Ok(Bytes(Plain(s)))
    {
      InflateRecovers(s, data);
    }
  }

  // ----- The tables are those of the format (RFC 1951, sections 3.2.5 to 3.2.7) -----

  /** Eight lengths without additional bits, then four for each number of them, one behind the other from 3; 258 by
      itself. */
  lemma LengthTableIsFormat(c: nat)
    requires c < 28
    ensures |LENGTH_START| == |LENGTH_ADDITIONAL_BITS| == 29
    ensures LENGTH_ADDITIONAL_BITS[c] == (if c < 8 then 0 else (c - 4) / 4)
    ensures LENGTH_START[0] == 3
            && (c < 27 ==> LENGTH_START[c + 1] == LENGTH_START[c] + Pow2(LENGTH_ADDITIONAL_BITS[c]))
    ensures LENGTH_START[28] == 258 && LENGTH_ADDITIONAL_BITS[28] == 0
  {
    hide Shl;
    PowersOfTwo();
  }

  /** Two distances without additional bits, then two for each number of them, one behind the other from 1. */
  lemma DistanceTableIsFormat(c: nat)
    requires c < 30
    ensures |DISTANCE_START| == |DISTANCE_ADDITIONAL_BITS| == 30
    ensures DISTANCE_ADDITIONAL_BITS[c] == (if c < 2 then 0 else (c - 2) / 2)
    ensures DISTANCE_START[0] == 1
    ensures c < 29 ==> DISTANCE_START[c + 1] == DISTANCE_START[c] + Pow2(DISTANCE_ADDITIONAL_BITS[c])
  {
    hide Shl;
    PowersOfTwo();
  }

  /** Code lengths are sent for the repeat codes and 0 first, and then for 8 and its neighbours outwards. */
  lemma ClenMapIsFormat(j: nat)
    requires j < 8
    ensures |CLEN_MAP| == 19 && CLEN_MAP[0] == 16 && CLEN_MAP[1] == 17 && CLEN_MAP[2] == 18 && CLEN_MAP[3] == 0
    ensures CLEN_MAP[4 + 2 * j] == 8 + j && (j < 7 ==> CLEN_MAP[5 + 2 * j] == 7 - j)
  {
  }

  /** The lengths of the fixed codes. */
  lemma FixedLengthsAreFormat(s: nat)
    requires s < 288
    ensures |FixedLengths()| == 288
    ensures FixedLengths()[s] == if s < 144 then 8 else if s < 256 then 9 else if s < 280 then 7 else 8
    ensures |FixedDistances()| == 32 && (s < 32 ==> FixedDistances()[s] == 5)
  {
    hide Repeat;
    var a, b := Repeat(8, 144) + Repeat(9, 112), Repeat(7, 24) + Repeat(8, 8);
    assert FixedLengths() == a + b;
  }

  /** A reader that aligns stands on the next byte boundary, at most seven bits on. */
  lemma AlignIsLeast(pos: nat)
    ensures AlignUp(pos) % 8 == 0 && pos <= AlignUp(pos) < pos + 8
  {
  }

  // ----- The tables leave nothing out -----

  lemma LengthTableContiguous(c: nat)
    requires c + 1 < |LENGTH_START|
    ensures LENGTH_START[c] < LENGTH_START[c + 1] <= LENGTH_START[c] + Pow2(LENGTH_ADDITIONAL_BITS[c])
  {
    hide Shl;
    PowersOfTwo();
  }

  lemma DistanceTableContiguous(c: nat)
    requires c + 1 < |DISTANCE_START|
    ensures DISTANCE_START[c] < DISTANCE_START[c + 1] <= DISTANCE_START[c] + Pow2(DISTANCE_ADDITIONAL_BITS[c])
  {
    hide Shl;
    PowersOfTwo();
  }

  /** Every copy length from 3 to 258 has a symbol and additional bits. */
  lemma {:induction false} EveryLengthHasCode(length: nat, last: nat) returns (c: nat, extra: nat)
    requires last < |LENGTH_START| && 3 <= length < LENGTH_START[last] + Pow2(LENGTH_ADDITIONAL_BITS[last])
    ensures c <= last && extra < Pow2(LENGTH_ADDITIONAL_BITS[c]) && LENGTH_START[c] + extra == length
    decreases last
  {
    hide LENGTH_ADDITIONAL_BITS, Shl;
    TableSizes();
    if LENGTH_START[last] <= length {
      c, extra := last, length - LENGTH_START[last];
    } else {
      LengthTableContiguous(last - 1);
      c, extra := EveryLengthHasCode(length, last - 1);
    }
  }

  /** Every distance from 1 to 32768 has a symbol and additional bits. */
  lemma {:induction false} EveryDistanceHasCode(distance: nat, last: nat) returns (c: nat, extra: nat)
    requires last < |DISTANCE_START| && 1 <= distance < DISTANCE_START[last] + Pow2(DISTANCE_ADDITIONAL_BITS[last])
    ensures c <= last && extra < Pow2(DISTANCE_ADDITIONAL_BITS[c]) && DISTANCE_START[c] + extra == distance
    decreases last
  {
    hide DISTANCE_ADDITIONAL_BITS, Shl;
    TableSizes();
    if DISTANCE_START[last] <= distance {
      c, extra := last, distance - DISTANCE_START[last];
    } else {
      DistanceTableContiguous(last - 1);
      c, extra := EveryDistanceHasCode(distance, last - 1);
    }
  }

  lemma EveryCopyHasToken(length: nat, distance: nat) returns (token: Token)
    requires 3 <= length <= 258 && 1 <= distance <= 0x8000
    ensures token.Match? && token.lengthCode < |LENGTH_START| && token.distanceCode < |DISTANCE_START|
    ensures token.lengthExtra < Pow2(LENGTH_ADDITIONAL_BITS[token.lengthCode])
    ensures token.distanceExtra < Pow2(DISTANCE_ADDITIONAL_BITS[token.distanceCode])
    ensures LENGTH_START[token.lengthCode] + token.lengthExtra == length
    ensures DISTANCE_START[token.distanceCode] + token.distanceExtra == distance
  {
    PowersOfTwo();
    var lc, le := EveryLengthHasCode(length, 28);
    var dc, de := EveryDistanceHasCode(distance, 29);
    token := Match(lc, le, dc, de);
  }
}
