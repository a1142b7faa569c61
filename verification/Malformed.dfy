/** What inflating makes of symbols and blocks that the format reserves (deflate.js). */
module Malformed {
  import opened Octets
  import opened Powers
  import opened Results
  import opened BitStreams
  import opened Huffman
  import opened Inflate
  import opened Deflate
  import opened InflateRoundTrip
  import opened StreamRoundTrip

  /** The length symbols 286 and 287 throw. */
  lemma ReservedLengthThrows(trees: Trees, s: nat, data: seq<byte>, pos: nat)
    requires 286 <= s && Usable(trees.lengths, s) && HasBits(data, pos, SymbolBits(trees.lengths, s))
    ensures ReadItem(trees, data, pos) == Throws(InvalidLengthCode)
  {
    hide Usable, SymbolBits, ReadSymbol, CodeTree, HasBits;
    SymbolReadsBack(trees.lengths, s, data, pos);
  }

  /** A distance symbol beyond the table makes a copy of undefined values, as long as its length says. */
  lemma ReservedDistanceIsUndefined(trees: Trees, lc: nat, le: nat, dc: nat, data: seq<byte>, pos: nat,
      history: seq<Cell>)
    requires lc < 29 && |LENGTH_ADDITIONAL_BITS| == 29 && le < Pow2(LENGTH_ADDITIONAL_BITS[lc])
             && Usable(trees.lengths, 257 + lc)
    requires dc >= 30 && Usable(trees.distances, dc)
    requires HasBits(data, pos, SymbolBits(trees.lengths, 257 + lc)
                                + (LsbBits(le, LENGTH_ADDITIONAL_BITS[lc]) + SymbolBits(trees.distances, dc)))
    ensures |LENGTH_START| == 29
    ensures var r := ReadItem(trees, data, pos);
            r.Ok? && Apply(history, r.value.0) == history + seq(LENGTH_START[lc] + le, _ => Undefined)
  {
    hide Usable, SymbolBits, ReadSymbol, CodeTree, ReadExtended, LsbBits, HasBits;
    hide LENGTH_START, LENGTH_ADDITIONAL_BITS, DISTANCE_START;
    TableSizes();
    var n := LENGTH_ADDITIONAL_BITS[lc];
    var a, b, c := SymbolBits(trees.lengths, 257 + lc), LsbBits(le, n), SymbolBits(trees.distances, dc);
    HasBitsSplit(data, pos, a, b + c);
    HasBitsSplit(data, pos + |a|, b, c);
    SymbolReadsBack(trees.lengths, 257 + lc, data, pos);
    ExtendedReadsBack(data, pos + |a|, LENGTH_START[lc], le, n);
    SymbolReadsBack(trees.distances, dc, data, pos + |a| + n);
  }

  /** A block of type 3 throws. */
  lemma ReservedBlockThrows(final: bool, data: seq<byte>, d: Decoder, history: seq<Cell>)
    requires ValidDecoder(data, d) && d.state == 0 && HasBits(data, d.pos, [final] + (LsbBits(3, 2) + []))
    ensures Output(data, d, history) == Throws(InvalidBlockType)
  {
    hide LsbBits, HasBits, LsbValue, ReadStored, ReadTrees, DecodeInBlock, FixedLengths, FixedDistances, WellSized;
    hide Apply;
    BlockTypeReadsBack(final, 3, [], data, d.pos);
  }

  /** Data that ends before a block header throws, an empty stream among it. */
  lemma MissingBlockThrows(data: seq<byte>, d: Decoder, history: seq<Cell>)
    requires ValidDecoder(data, d) && d.state == 0 && d.pos + 3 > 8 * |data|
    ensures Output(data, d, history) == Throws(UnexpectedEnd)
  {
  }

  /** A stored block whose bytes are cut short throws. */
  lemma CutStoredThrows(bytes: seq<byte>, data: seq<byte>, pos: nat)
    requires |bytes| <= 0xFFFF && HasBits(data, AlignUp(pos), LsbBits(|bytes|, 16) + LsbBits(0xFFFF - |bytes|, 16))
    requires 8 * |data| < AlignUp(pos) + 32 + 8 * |bytes|
    ensures ReadStored(data, pos) == Throws(UncompleteBlock)
  {
    hide HasBits, LsbBits, LsbValue, AndNot;
    var p := AlignUp(pos);
    HasBitsSplit(data, p, LsbBits(|bytes|, 16), LsbBits(0xFFFF - |bytes|, 16));
    PowersOfTwo();
    PeekReadsBack(data, p, |bytes|, 16);
    PeekReadsBack(data, p + 16, 0xFFFF - |bytes|, 16);
    ComplementPasses(|bytes|, 0xFFFF - |bytes|, 16);
  }
}
