/** Whole streams read back, from bits and from bytes. */
module StreamRoundTrip {
  import opened Octets
  import opened Powers
  import opened Results
  import opened BitStreams
  import opened Huffman
  import opened Inflate
  import opened Deflate
  import opened InflateRoundTrip
  import opened HeaderRoundTrip

  // ----- Stored blocks -----

  lemma {:induction false} ByteFromBits(data: seq<byte>, q: nat, k: nat)
    requires q < |data| && k <= 8
    ensures LsbValue(data, 8 * q, k) + Shl(Shr(data[q], k), k) == data[q]
    decreases k
  {
    if k > 0 {
      ByteFromBits(data, q, k - 1);
      ShrAdd(data[q], k - 1, 1);
      var x := Shr(data[q], k - 1);
      assert Shr(data[q], k) == x / 2;
      assert (8 * q + k - 1) / 8 == q && (8 * q + k - 1) % 8 == k - 1;
      assert Bit(data, 8 * q + k - 1) == (x % 2 == 1);
      SplitOffLowBit(x, k - 1);
    }
  }

  lemma SplitOffLowBit(x: nat, n: nat)
    ensures Shl(x, n) == Shl(x / 2, n + 1) + if x % 2 == 1 then Pow2(n) else 0
  {
    ShlDouble(x / 2, n);
    ShlSum(2 * (x / 2), x % 2, n);
    ShlDouble(0, n);
  }

  lemma ByteReadsBack(data: seq<byte>, q: nat, b: byte)
    requires HasBits(data, 8 * q, LsbBits(b, 8))
    ensures q < |data| && data[q] == b
  {
    assert Pow2(8) == 256;
    ReadsBack(data, 8 * q, b, 8);
    ByteFromBits(data, q, 8);
    ShrAdjoint(data[q], 1, 8);
  }

  lemma {:induction false} BytesReadBack(data: seq<byte>, q: nat, bytes: seq<byte>)
    requires HasBits(data, 8 * q, BytesBits(bytes))
    ensures q + |bytes| <= |data| && data[q..q + |bytes|] == bytes
    decreases |bytes|
  {
    hide LsbBits;
    if bytes != [] {
      HasBitsSplit(data, 8 * q, LsbBits(bytes[0], 8), BytesBits(bytes[1..]));
      ByteReadsBack(data, q, bytes[0]);
      assert 8 * (q + 1) == 8 * q + 8;
      BytesReadBack(data, q + 1, bytes[1..]);
    }
  }

  /** A number and its complement share no bits. */
  lemma {:induction false} ComplementPasses(len: nat, nlen: nat, n: nat)
    requires len + nlen + 1 == Pow2(n)
    ensures AndNot(len, nlen) == len
    decreases n
  {
    if n > 0 && len > 0 {
      ComplementPasses(len / 2, nlen / 2, n - 1);
    }
  }

  /** The length test accepts exactly the pairs that share no set bit, so it accepts more than the
      one's complement that RFC 1951, section 3.2.4, asks for. */
  predicate Disjoint(a: nat, b: nat) {
    if a == 0 then true else !(a % 2 == 1 && b % 2 == 1) && Disjoint(a / 2, b / 2)
  }

  lemma {:induction false} LengthTestIffDisjoint(len: nat, nlen: nat)
    ensures AndNot(len, nlen) <= len
    ensures AndNot(len, nlen) == len <==> Disjoint(len, nlen)
  {
    if len > 0 {
      LengthTestIffDisjoint(len / 2, nlen / 2);
    }
  }

  lemma {:induction false} ShrOfZero(n: nat)
    ensures Shr(0, n) == 0
  {
    if n > 0 {
      ShrOfZero(n - 1);
    }
  }

  lemma {:induction false} ZeroBits(data: seq<byte>, pos: nat, n: nat)
    requires pos + n <= 8 * |data| && forall i :: pos <= i < pos + n ==> !Bit(data, i)
    ensures LsbValue(data, pos, n) == 0
    decreases n
  {
    if n > 0 {
      ZeroBits(data, pos, n - 1);
    }
  }

  lemma {:induction false} OnlyFirstBit(data: seq<byte>, n: nat)
    requires 0 < n <= 8 * |data| && Bit(data, 0) && forall i :: 0 < i < n ==> !Bit(data, i)
    ensures LsbValue(data, 0, n) == 1
  {
    if n > 1 {
      OnlyFirstBit(data, n - 1);
    } else {
      assert LsbValue(data, 0, 0) == 0;
    }
  }

  /** A stored block of one byte whose second length field is 0 instead of 65534 is accepted. */
  lemma WrongComplementIsAccepted(b: byte)
    ensures ReadStored([1, 0, 0, 0, b], 0) == Ok((StoredItem([b]), 40))
  {
    var data: seq<byte> := [1, 0, 0, 0, b];
    forall i | 0 < i < 32
      ensures !Bit(data, i)
    {
      ShrOfZero(i % 8);
      if i < 8 {
        ShrOfZero(i - 1);
        assert Shr(1, i) == Shr(0, i - 1);
      }
    }
    assert Bit(data, 0);
    OnlyFirstBit(data, 16);
    ZeroBits(data, 16, 16);
    assert data[4..5] == [b];
  }

  lemma StoredReadsBack(padding: seq<bool>, bytes: seq<byte>, data: seq<byte>, pos: nat)
    requires |padding| == AlignUp(pos) - pos && |bytes| <= 0xFFFF
    requires HasBits(data, pos, padding + StoredBits(bytes))
    ensures ReadStored(data, pos) == Ok((StoredItem(bytes), AlignUp(pos) + 32 + 8 * |bytes|))
  {
    hide *;
    var q := AlignedStart(pos);
    HasBitsSplit(data, pos, padding, StoredBits(bytes));
    StoredBodyReadsBack(bytes, data, q);
    StoredAt(bytes, data, pos, q);
  }

  lemma AlignedStart(pos: nat) returns (q: nat)
    ensures pos <= AlignUp(pos) == 8 * q
  {
    q := (pos + 7) / 8;
  }

  lemma StoredBodyReadsBack(bytes: seq<byte>, data: seq<byte>, q: nat)
    requires |bytes| <= 0xFFFF && HasBits(data, 8 * q, StoredBits(bytes))
    ensures PeekLsb(data, 8 * q, 16) == Ok(|bytes|) && PeekLsb(data, 8 * q + 16, 16) == Ok(0xFFFF - |bytes|)
    ensures AndNot(|bytes|, 0xFFFF - |bytes|) == |bytes|
    ensures q + 4 + |bytes| <= |data| && data[q + 4..q + 4 + |bytes|] == bytes
  {
    hide *;
    StoredSplit(bytes, StoredBits(bytes), data, 8 * q);
    PowersOfTwo();
    PeekReadsBack(data, 8 * q, |bytes|, 16);
    PeekReadsBack(data, 8 * q + 16, 0xFFFF - |bytes|, 16);
    ComplementPasses(|bytes|, 0xFFFF - |bytes|, 16);
    assert 8 * (q + 4) == 8 * q + 32;
    BytesReadBack(data, q + 4, bytes);
  }

  lemma StoredSplit(bytes: seq<byte>, bits: seq<bool>, data: seq<byte>, pos: nat)
    requires |bytes| <= 0xFFFF && bits == StoredBits(bytes) && HasBits(data, pos, bits)
    ensures HasBits(data, pos, LsbBits(|bytes|, 16)) && HasBits(data, pos + 16, LsbBits(0xFFFF - |bytes|, 16))
    ensures HasBits(data, pos + 32, BytesBits(bytes))
  {
    hide LsbBits, BytesBits, HasBits;
    HasBitsSplit3(data, pos, bits,
                  LsbBits(|bytes|, 16), LsbBits(0xFFFF - |bytes|, 16), BytesBits(bytes));
  }

  lemma HasBitsSplit3(data: seq<byte>, pos: nat, bits: seq<bool>, a: seq<bool>, b: seq<bool>, c: seq<bool>)
    requires HasBits(data, pos, bits) && bits == a + (b + c)
    ensures HasBits(data, pos, a) && HasBits(data, pos + |a|, b) && HasBits(data, pos + |a| + |b|, c)
  {
    hide HasBits;
    HasBitsSplit(data, pos, a, b + c);
    HasBitsSplit(data, pos + |a|, b, c);
  }

  lemma StoredAt(bytes: seq<byte>, data: seq<byte>, pos: nat, q: nat)
    requires AlignUp(pos) == 8 * q && |bytes| <= 0xFFFF && pos <= 8 * q
    requires PeekLsb(data, 8 * q, 16) == Ok(|bytes|) && PeekLsb(data, 8 * q + 16, 16) == Ok(0xFFFF - |bytes|)
    requires AndNot(|bytes|, 0xFFFF - |bytes|) == |bytes|
    requires q + 4 + |bytes| <= |data| && data[q + 4..q + 4 + |bytes|] == bytes
    ensures ReadStored(data, pos) == Ok((StoredItem(bytes), 8 * q + 32 + 8 * |bytes|))
  {
    hide AlignUp, PeekLsb, AndNot;
    assert 8 * q / 8 == q;
  }

  // ----- Blocks -----

  /** The three header bits of every block. */
  lemma BlockTypeReadsBack(final: bool, blockType: nat, rest: seq<bool>, data: seq<byte>, pos: nat)
    requires blockType < 4 && HasBits(data, pos, [final] + (LsbBits(blockType, 2) + rest))
    ensures PeekBit(data, pos) == Ok(final) && PeekLsb(data, pos + 1, 2) == Ok(blockType)
    ensures pos + 3 <= 8 * |data| && HasBits(data, pos + 3, rest)
  {
    HasBitsSplit(data, pos, [final], LsbBits(blockType, 2) + rest);
    HasBitsSplit(data, pos + 1, LsbBits(blockType, 2), rest);
    ReadsBack(data, pos + 1, blockType, 2);
    assert Bit(data, pos + 0) == [final][0];
  }

  lemma StoredDecodes(padding: seq<bool>, bytes: seq<byte>, final: bool, d: Decoder, output: seq<byte>, data: seq<byte>)
    returns (d': Decoder)
    requires |padding| == AlignUp(d.pos + 3) - (d.pos + 3) && |bytes| <= 0xFFFF && d.state == 0 && ValidDecoder(data, d)
    requires HasBits(data, d.pos, [final] + (LsbBits(0, 2) + (padding + StoredBits(bytes))))
    ensures ValidDecoder(data, d') && AtBoundary(d', d.pos + 3 + |padding| + |StoredBits(bytes)|, final)
            && d'.pos % 8 == 0
    ensures Output(data, d, Bytes(output)) == Output(data, d', Bytes(output + bytes))
  {
    hide LsbBits, StoredBits, HasBits, ReadStored, Output, Bytes, DecodeItem, AlignUp, PeekBit, PeekLsb, Apply;
    var q := AlignedStart(d.pos + 3);
    BlockTypeReadsBack(final, 0, padding + StoredBits(bytes), data, d.pos);
    StoredReadsBack(padding, bytes, data, d.pos + 3);
    d' := StoredItemDecodes(data, d, final, bytes, 8 * q + 32 + 8 * |bytes|);
    assert d'.pos == 8 * (q + 4 + |bytes|);
    ItemThenRest(data, d, StoredItem(bytes), d', Bytes(output));
    StoredAppends(output, bytes);
  }

  lemma StoredItemDecodes(data: seq<byte>, d: Decoder, final: bool, bytes: seq<byte>, end: nat) returns (d': Decoder)
    requires ValidDecoder(data, d) && d.state == 0 && PeekBit(data, d.pos) == Ok(final)
             && PeekLsb(data, d.pos + 1, 2) == Ok(0)
    requires ReadStored(data, d.pos + 3) == Ok((StoredItem(bytes), end))
    ensures DecodeItem(data, d) == Ok((Some(StoredItem(bytes)), d'))
    ensures ValidDecoder(data, d') && d'.pos == end && d'.state == (if final then 2 else 0) && d'.blockFinal == final
  {
    hide PeekBit, PeekLsb, ReadStored, BlockTrees, DecodeInBlock;
    d' := d.(pos := end, blockFinal := final, state := if final then 2 else 0);
    assert end <= 8 * |data|;
  }

  /** The output goes on with an item's. */
  lemma ItemThenRest(data: seq<byte>, d: Decoder, item: Item, d': Decoder, history: seq<Cell>)
    requires ValidDecoder(data, d) && ValidDecoder(data, d') && DecodeItem(data, d) == Ok((Some(item), d'))
    ensures Output(data, d, history) == Output(data, d', Apply(history, item))
  {
    hide DecodeItem, Apply;
  }

  lemma StoredAppends(output: seq<byte>, bytes: seq<byte>)
    ensures Apply(Bytes(output), StoredItem(bytes)) == Bytes(output + bytes)
  {
    hide Bytes;
    var a, b := Bytes(output) + Bytes(bytes), Bytes(output + bytes);
    assert forall i :: 0 <= i < |output| ==> a[i] == Byte(output[i]) == b[i];
    assert forall i :: 0 <= i < |bytes| ==> a[|output| + i] == Byte(bytes[i]) == b[|output| + i];
    assert a == b;
  }

  /** A compressed block, once its header is read: the tokens in it, as one stretch of bits. */
  lemma CompressedDecodes(blockType: nat, trees: Trees, tokens: seq<Token>, final: bool, d: Decoder, p: nat,
      output: seq<byte>,
                          data: seq<byte>) returns (d': Decoder)
    requires ValidDecoder(data, d) && d.state == 0 && blockType != 0 && WellSized(trees)
             && ValidTokens(trees, tokens, output)
    requires PeekBit(data, d.pos) == Ok(final) && PeekLsb(data, d.pos + 1, 2) == Ok(blockType)
    requires BlockTrees(blockType, data, d.pos + 3) == Ok((trees, p))
             && HasBits(data, p, TokensBits(trees, tokens, output))
    ensures ValidDecoder(data, d') && AtBoundary(d', p + |TokensBits(trees, tokens, output)|, final)
    ensures Output(data, d, Bytes(output)) == Output(data, d', Bytes(ExpandTokens(trees, tokens, output)))
  {
    d' := TokensDecode(trees, tokens, output, data, p, final);
    hide PeekBit, PeekLsb, BlockTrees, HasBits, TokensBits, Output, Bytes, ExpandTokens, WellSized, ValidTokens;
    HeaderThenItem(data, d, Decoder(p, 1, final, trees), Bytes(output));
  }

  lemma FixedDecodes(trees: Trees, tokens: seq<Token>, final: bool, d: Decoder, output: seq<byte>, data: seq<byte>)
    returns (d': Decoder)
    requires trees == Trees(FixedLengths(), FixedDistances()) && ValidTokens(trees, tokens, output)
    requires d.state == 0 && ValidDecoder(data, d)
    requires HasBits(data, d.pos, [final] + (LsbBits(1, 2) + TokensBits(trees, tokens, output)))
    ensures ValidDecoder(data, d') && AtBoundary(d', d.pos + 3 + |TokensBits(trees, tokens, output)|, final)
    ensures Output(data, d, Bytes(output)) == Output(data, d', Bytes(ExpandTokens(trees, tokens, output)))
  {
    hide *;
    FixedTrees(data, d.pos + 3);
    BlockTypeReadsBack(final, 1, TokensBits(trees, tokens, output), data, d.pos);
    d' := CompressedDecodes(1, trees, tokens, final, d, d.pos + 3, output, data);
  }

  lemma DynamicDecodes(header: Header, trees: Trees, tokens: seq<Token>, final: bool, d: Decoder, output: seq<byte>,
      data: seq<byte>)
    returns (d': Decoder)
    requires ValidHeader(header) && trees == HeaderTrees(header) && ValidTokens(trees, tokens, output)
    requires d.state == 0 && ValidDecoder(data, d)
    requires HasBits(data, d.pos, [final] + (LsbBits(2, 2) + (HeaderBits(header) + TokensBits(trees, tokens, output))))
    ensures ValidDecoder(data, d')
    ensures AtBoundary(d', d.pos + 3 + |HeaderBits(header)| + |TokensBits(trees, tokens, output)|, final)
    ensures Output(data, d, Bytes(output)) == Output(data, d', Bytes(ExpandTokens(trees, tokens, output)))
  {
    hide *;
    var p := d.pos + 3;
    BlockTypeReadsBack(final, 2, HeaderBits(header) + TokensBits(trees, tokens, output), data, d.pos);
    HasBitsSplit(data, p, HeaderBits(header), TokensBits(trees, tokens, output));
    HeaderReadsBack(header, data, p);
    DynamicTrees(data, p);
    d' := CompressedDecodes(2, trees, tokens, final, d, p + |HeaderBits(header)|, output, data);
  }

  lemma FixedTrees(data: seq<byte>, pos: nat)
    ensures var trees := Trees(FixedLengths(), FixedDistances());
            BlockTrees(1, data, pos) == Ok((trees, pos)) && WellSized(trees)
  {
    hide FixedLengths, FixedDistances, WellSized;
    FixedWellSized();
  }

  lemma DynamicTrees(data: seq<byte>, pos: nat)
    ensures BlockTrees(2, data, pos) == ReadTrees(data, pos)
    ensures var r := ReadTrees(data, pos); r.Ok? && pos <= 8 * |data| ==> WellSized(r.value.0)
  {
    hide ReadTrees;
  }

  /** Reading the header and the first item together is reading the first item after the header. */
  lemma HeaderThenItem(data: seq<byte>, d: Decoder, inside: Decoder, history: seq<Cell>)
    requires ValidDecoder(data, d) && d.state == 0 && ValidDecoder(data, inside) && inside.state == 1
    requires PeekBit(data, d.pos) == Ok(inside.blockFinal)
    requires var blockType := PeekLsb(data, d.pos + 1, 2);
      && blockType.Ok? && blockType.value != 0
      && BlockTrees(blockType.value, data, d.pos + 3) == Ok((inside.trees, inside.pos))
    ensures Output(data, d, history) == Output(data, inside, history)
  {
    hide ReadItem, BlockTrees, LsbValue;
    assert DecodeItem(data, d) == DecodeItem(data, inside);
  }

  /** One block: afterwards the decoder stands at the block's end with its expansion produced, and
      after a stored block on a byte boundary. */
  lemma BlockDecodes(b: Block, final: bool, d: Decoder, output: seq<byte>, data: seq<byte>) returns (d': Decoder)
    requires ValidBlock(b, d.pos, output) && d.state == 0 && ValidDecoder(data, d)
    requires HasBits(data, d.pos, BlockBits(b, final, d.pos, output))
    ensures ValidDecoder(data, d') && AtBoundary(d', d.pos + |BlockBits(b, final, d.pos, output)|, final)
    ensures b.Stored? ==> d'.pos % 8 == 0
    ensures Output(data, d, Bytes(output)) == Output(data, d', Bytes(ExpandBlock(b, d.pos, output)))
  {
    hide LsbBits, HasBits, HeaderBits, TokensBits, ExpandTokens, ValidTokens, ValidHeader, HeaderTrees, StoredBits;
    hide FixedLengths, FixedDistances, WellSized, Output, Bytes, AlignUp;
    match b
    case Stored(padding, bytes) => d' := StoredDecodes(padding, bytes, final, d, output, data);
    case Fixed(tokens) => d' := FixedDecodes(BlockTreesOf(b), tokens, final, d, output, data);
    case Dynamic(header, tokens) => d' := DynamicDecodes(header, BlockTreesOf(b), tokens, final, d, output, data);
  }

  lemma {:induction false} StreamDecodes(s: Stream, d: Decoder, output: seq<byte>, data: seq<byte>)
    requires ValidBlocks(s, d.pos, output) && d.state == 0 && ValidDecoder(data, d)
    requires HasBits(data, d.pos, BlocksBits(s, d.pos, output))
    ensures Output(data, d, Bytes(output)) == Ok(Bytes(ExpandBlocks(s, d.pos, output)))
    decreases s
  {
    hide HasBits, ValidBlock, ExpandBlock, BlockBits, DecodeItem, Output, Bytes, FixedLengths, WellSized;
    var b := s.block;
    if s.Final? {
      var d' := BlockDecodes(b, true, d, output, data);
      FinishedOutput(data, d', Bytes(ExpandBlock(b, d.pos, output)));
    } else {
      var next := ExpandBlock(b, d.pos, output);
      HasBitsSplit(data, d.pos, BlockBits(b, false, d.pos, output),
                   BlocksBits(s.rest, BlockEnd(b, d.pos, output), next));
      var d' := BlockDecodes(b, false, d, output, data);
      StreamDecodes(s.rest, d', next, data);
    }
  }

  lemma FinishedOutput(data: seq<byte>, d: Decoder, history: seq<Cell>)
    requires ValidDecoder(data, d) && d.state == 2
    ensures Output(data, d, history) == Ok(history)
  {
  }

  /** Every well-formed stream, whatever follows it in the data, expands to what it stands for. */
  lemma InflateRecovers(s: Stream, data: seq<byte>)
    requires ValidStream(s) && HasBits(data, 0, BlocksBits(s, 0, []))
    ensures Output(data, START, []) == Ok(Bytes(Plain(s)))
  {
    hide BlocksBits, ValidBlocks, ExpandBlocks, HasBits, Output;
    StreamDecodes(s, START, [], data);
    assert Bytes([]) == [];
  }

  // ----- Bytes -----

  lemma {:induction false} ShrOfBits(bits: seq<bool>, k: nat)
    requires k < |bits|
    ensures (Shr(BitsValue(bits), k) % 2 == 1) == bits[k]
    decreases k
  {
    if k > 0 {
      ShrOfBits(bits[1..], k - 1);
      assert BitsValue(bits) / 2 == BitsValue(bits[1..]);
    }
  }

  lemma {:induction false} PackHasBits(bits: seq<bool>)
    ensures HasBits(Pack(bits), 0, bits)
    decreases |bits|
  {
    if bits != [] {
      hide BitsValue;
      var first := if |bits| < 8 then bits else bits[..8];
      var rest := bits[|first|..];
      PackHasBits(rest);
      var data := Pack(bits);
      var b: byte := data[0];
      assert b == BitsValue(first) && data == [b] + Pack(rest);
      hide Pack, Bit;
      forall i | 0 <= i < |bits|
        ensures Bit(data, 0 + i) == bits[i]
      {
        if i < 8 {
          ShrOfBits(first, i);
          FirstByteBit(b, Pack(rest), i);
        } else {
          BitBeyond(b, Pack(rest), i - 8);
          assert Bit(Pack(rest), 0 + (i - 8)) == rest[i - 8] == bits[i];
        }
      }
    }
  }

  lemma FirstByteBit(b: byte, data: seq<byte>, i: nat)
    requires i < 8
    ensures Bit([b] + data, i) == (Shr(b, i) % 2 == 1)
  {
    hide Shr;
    assert i / 8 == 0 && i % 8 == i;
  }

  lemma BitBeyond(b: byte, data: seq<byte>, j: nat)
    requires j < 8 * |data|
    ensures Bit([b] + data, 8 + j) == Bit(data, j)
  {
    assert (8 + j) / 8 == j / 8 + 1 && (8 + j) % 8 == j % 8;
  }

  /** Inflating the encoding of a stream gives back what the stream stands for. */
  lemma InflateInvertsEncode(s: Stream)
    requires ValidStream(s)
    ensures Output(Encode(s), START, []) == Ok(Bytes(Plain(s)))
  {
    hide BlocksBits, HasBits, Pack, Output, ValidBlocks, ExpandBlocks, Bytes;
    PackHasBits(BlocksBits(s, 0, []));
    InflateRecovers(s, Encode(s));
  }
}
