/** What deflate.js computes from a compressed stream, as functions of the data and the bit
    position: the specification of the reader objects in Inflator, and the subject of the
    round-trip theorem. The whole output so far is kept here; the sliding window is not. */
module Inflate {
  import opened Octets
  import opened Powers
  import opened Results
  import opened BitStreams
  import opened Huffman

  // ----- Tables (RFC 1951, sections 3.2.5 and 3.2.7) -----

  const LENGTH_START: seq<nat> := [3, 4, 5, 6, 7, 8, 9, 10, 11, 13, 15, 17, 19, 23, 27, 31, 35, 43,
    51, 59, 67, 83, 99, 115, 131, 163, 195, 227, 258]

  const LENGTH_ADDITIONAL_BITS: seq<nat> := [0, 0, 0, 0, 0, 0, 0, 0, 1, 1, 1, 1, 2, 2, 2, 2, 3, 3,
    3, 3, 4, 4, 4, 4, 5, 5, 5, 5, 0]

  const DISTANCE_START: seq<nat> := [1, 2, 3, 4, 5, 7, 9, 13, 17, 25, 33, 49, 65, 97, 129, 193, 257,
    385, 513, 769, 1025, 1537, 2049, 3073, 4097, 6145, 8193, 12289, 16385, 24577]

  const DISTANCE_ADDITIONAL_BITS: seq<nat> := [0, 0, 0, 0, 1, 1, 2, 2, 3, 3, 4, 4, 5, 5, 6, 6, 7, 7,
    8, 8, 9, 9, 10, 10, 11, 11, 12, 12, 13, 13]

  const CLEN_MAP: seq<nat> := [16, 17, 18, 0, 8, 7, 9, 6, 10, 5, 11, 4, 12, 3, 13, 2, 14, 1, 15]

  lemma TableSizes()
    ensures |LENGTH_START| == |LENGTH_ADDITIONAL_BITS| == 29
    ensures |DISTANCE_START| == |DISTANCE_ADDITIONAL_BITS| == 30
  {
  }

  function Repeat(x: nat, n: nat): (r: seq<nat>)
    ensures |r| == n && forall i :: 0 <= i < n ==> r[i] == x
  {
    seq(n, _ => x)
  }

  /** The code lengths of fixed blocks (RFC 1951, section 3.2.6). */
  function FixedLengths(): (r: seq<nat>)
    ensures |r| == 288
  {
    Repeat(8, 144) + Repeat(9, 112) + Repeat(7, 24) + Repeat(8, 8)
  }

  function FixedDistances(): (r: seq<nat>)
    ensures |r| == 32
  {
    Repeat(5, 32)
  }

  // ----- Symbols -----

  /** Walks the tree from pos on; the symbol found and the position after its code. */
  function ReadSymbol(t: Tree, data: seq<byte>, pos: nat): (r: Result<(nat, nat)>)
    ensures r.Ok? ==> pos <= r.value.1
    ensures r.Ok? && !t.Leaf? ==> pos < r.value.1
    ensures r.Ok? && pos <= 8 * |data| ==> r.value.1 <= 8 * |data|
  {
    match t
    case Null => Throws(TypeError)
    case Leaf(index) => Ok((index, pos))
    case Branch(zero, one) =>
      var bit :- PeekBit(data, pos);
      ReadSymbol(if bit then one else zero, data, pos + 1)
  }

  // ----- Dynamic trees (RFC 1951, section 3.2.7) -----

  lemma ClenMapBound(i: nat)
    requires i < 19
    ensures |CLEN_MAP| == 19 && CLEN_MAP[i] < 19
  {
  }

  /** The 19 code-length code lengths, the first n of them read from pos on. */
  function CodeLengthLengths(data: seq<byte>, pos: nat, n: nat): (r: seq<nat>)
    requires n <= 19 && pos + 3 * n <= 8 * |data|
    ensures |r| == 19 && forall i :: 0 <= i < 19 ==> r[i] < 8
  {
    if n == 0 then Repeat(0, 19)
    else
      LsbBound(data, pos + 3 * (n - 1), 3);
      CodeLengthLengths(data, pos, n - 1)[CLEN_MAP[n - 1] := LsbValue(data, pos + 3 * (n - 1), 3)]
  }

  /** Stands for JavaScript's undefined among code lengths, which are at most 15. */
  const UNDEFINED: nat := 16

  /** The entry before the end, which a list without entries does not have. */
  function LastLength(lens: seq<nat>): nat {
    if lens == [] then UNDEFINED else lens[|lens| - 1]
  }

  /** Code lengths are all defined, or undefined from the first on. */
  ghost predicate Lengths(lens: seq<nat>) {
    forall i :: 0 <= i < |lens| ==> lens[i] <= MAX_CODE_LENGTH || lens[0] == UNDEFINED
  }

  /** What one code-length code appends: a leading repeat code appends undefined values. */
  function ReadRun(code: nat, data: seq<byte>, pos: nat, acc: seq<nat>): (r: Result<(seq<nat>, nat)>)
    ensures r.Ok? ==> |acc| < |r.value.0| && acc <= r.value.0 && pos <= r.value.1
    ensures r.Ok? && Lengths(acc) ==> Lengths(r.value.0)
    ensures r.Ok? && pos <= 8 * |data| ==> r.value.1 <= 8 * |data|
  {
    if code <= 15 then Ok((acc + [code], pos))
    else if code == 16 then
      var extra :- PeekLsb(data, pos, 2);
      Ok((acc + Repeat(LastLength(acc), extra + 3), pos + 2))
    else if code == 17 then
      var extra :- PeekLsb(data, pos, 3);
      Ok((acc + Repeat(0, extra + 3), pos + 3))
    else
      var extra :- PeekLsb(data, pos, 7);
      Ok((acc + Repeat(0, extra + 11), pos + 7))
  }

  /** Reads code lengths until there are at least `total` of them. */
  function ReadLengths(clen: seq<nat>, data: seq<byte>, pos: nat, acc: seq<nat>, total: nat)
    : (r: Result<(seq<nat>, nat)>)
    ensures r.Ok? ==> |r.value.0| >= total && pos <= r.value.1
    ensures r.Ok? && Lengths(acc) ==> Lengths(r.value.0)
    ensures r.Ok? && pos <= 8 * |data| ==> r.value.1 <= 8 * |data|
    decreases total - |acc|
  {
    if |acc| >= total then Ok((acc, pos))
    else
      var (code, p) :- ReadSymbol(CodeTree(clen), data, pos);
      var (acc', p') :- ReadRun(code, data, p, acc);
      ReadLengths(clen, data, p', acc', total)
  }

  datatype Trees = Trees(lengths: seq<nat>, distances: seq<nat>)

  ghost predicate WellSized(t: Trees) {
    && 0 < |t.lengths| <= 288 && 0 < |t.distances| <= 32
    && (forall i :: 0 <= i < |t.lengths| ==> t.lengths[i] <= MAX_CODE_LENGTH)
    && (forall i :: 0 <= i < |t.distances| ==> t.distances[i] <= MAX_CODE_LENGTH)
  }

  /** The two length vectors; buildCodes throws when it sizes an array by an undefined length. */
  function ReadTrees(data: seq<byte>, pos: nat): (r: Result<(Trees, nat)>)
    ensures r.Ok? ==> WellSized(r.value.0) && pos < r.value.1 <= 8 * |data|
  {
    var hlit :- PeekLsb(data, pos, 5);
    var hdist :- PeekLsb(data, pos + 5, 5);
    var hclen :- PeekLsb(data, pos + 10, 4);
    LsbBound(data, pos, 5);
    LsbBound(data, pos + 5, 5);
    LsbBound(data, pos + 10, 4);
    if pos + 14 + 3 * (hclen + 4) > 8 * |data| then Throws(UnexpectedEnd)
    else
      var clen := CodeLengthLengths(data, pos + 14, hclen + 4);
      var (lens, p) :-
        ReadLengths(clen, data, pos + 14 + 3 * (hclen + 4), [], hlit + 257 + (hdist + 1));
      if lens[0] == UNDEFINED then Throws(RangeError)
      else Ok((Trees(lens[..hlit + 257], lens[hlit + 257..hlit + 257 + (hdist + 1)]), p))
  }

  lemma {:induction false} LsbBound(data: seq<byte>, pos: nat, n: nat)
    requires pos + n <= 8 * |data|
    ensures LsbValue(data, pos, n) < Pow2(n)
    ensures n == 3 ==> Pow2(n) == 8
    ensures n == 4 ==> Pow2(n) == 16
    ensures n == 5 ==> Pow2(n) == 32
  {
    if n > 0 {
      LsbBound(data, pos, n - 1);
    }
  }

  // ----- Items -----

  /** What one call of decodeItem finds. A distance of None is NaN: the distance symbols 30 and 31
      lie beyond the table. */
  datatype Item =
    | StoredItem(bytes: seq<byte>)
    | EndOfBlock
    | Symbol(symbol: byte)
    | Copy(distance: Option<nat>, length: nat)

  /** The decoder between two calls of decodeItem: 0 = before a block header, 1 = in a compressed
      block, 2 = after the final block. */
  datatype Decoder = Decoder(pos: nat, state: nat, blockFinal: bool, trees: Trees)

  ghost predicate ValidDecoder(data: seq<byte>, d: Decoder) {
    d.pos <= 8 * |data| && d.state <= 2 && (d.state == 1 ==> WellSized(d.trees))
  }

  /** `a & ~b` on non-negative integers. */
  function AndNot(a: nat, b: nat): nat {
    if a == 0 then 0 else (if a % 2 == 1 && b % 2 == 0 then 1 else 0) + 2 * AndNot(a / 2, b / 2)
  }

  /** A length or distance: table entry plus additional bits. */
  function ReadExtended(data: seq<byte>, pos: nat, start: nat, bits: nat): (r: Result<(nat, nat)>)
    ensures r.Ok? ==> r.value.1 == pos + bits && (pos <= 8 * |data| ==> r.value.1 <= 8 * |data|)
    ensures r.Ok? ==> start <= r.value.0 < start + Pow2(bits)
  {
    var extra :- PeekLsb(data, pos, bits);
    LsbBound(data, pos, bits);
    Ok((start + extra, pos + bits))
  }

  function ReadDistance(distances: seq<nat>, data: seq<byte>, pos: nat): (r: Result<(Option<nat>, nat)>)
    ensures r.Ok? ==> pos <= r.value.1 && (pos <= 8 * |data| ==> r.value.1 <= 8 * |data|)
  {
    var (code, p) :- ReadSymbol(CodeTree(distances), data, pos);
    if code < |DISTANCE_START| then
      var (distance, p') :- ReadExtended(data, p, DISTANCE_START[code], DISTANCE_ADDITIONAL_BITS[code]);
      Ok((Some(distance), p'))
    else
      Ok((None, p))
  }

  /** The next literal, copy or end of block of a compressed block, and the position after it. */
  function ReadItem(trees: Trees, data: seq<byte>, pos: nat): (r: Result<(Item, nat)>)
    ensures r.Ok? ==> pos < r.value.1 && (pos <= 8 * |data| ==> r.value.1 <= 8 * |data|)
    ensures r.Ok? ==> !r.value.0.StoredItem?
  {
    var (code, p) :- ReadSymbol(CodeTree(trees.lengths), data, pos);
    if code < 256 then Ok((Symbol(code), p))
    else if code == 256 then Ok((EndOfBlock, p))
    else if code > 285 then Throws(InvalidLengthCode)
    else
      var (length, p') :-
        ReadExtended(data, p, LENGTH_START[code - 257], LENGTH_ADDITIONAL_BITS[code - 257]);
      var (distance, p'') :- ReadDistance(trees.distances, data, p');
      Ok((Copy(distance, length), p''))
  }

  function ReadStored(data: seq<byte>, pos: nat): (r: Result<(Item, nat)>)
    ensures r.Ok? ==> r.value.0.StoredItem? && pos < r.value.1 <= 8 * |data| && r.value.1 % 8 == 0
  {
    var start := AlignUp(pos);
    var len :- PeekLsb(data, start, 16);
    var nlen :- PeekLsb(data, start + 16, 16);
    var first := start / 8 + 4;
    if AndNot(len, nlen) != len then Throws(InvalidStoredLength)
    else if first + len > |data| then Throws(UncompleteBlock)
    else Ok((StoredItem(data[first..first + len]), 8 * (first + len)))
  }

  lemma FixedWellSized()
    ensures WellSized(Trees(FixedLengths(), FixedDistances()))
  {
  }

  /** The trees of a compressed block (RFC 1951, section 3.2.3, BTYPE 1 and 2). */
  function BlockTrees(blockType: nat, data: seq<byte>, pos: nat): (r: Result<(Trees, nat)>)
    ensures r.Ok? && pos <= 8 * |data| ==> WellSized(r.value.0) && pos <= r.value.1 <= 8 * |data|
  {
    match blockType
    case 1 =>
      FixedWellSized();
      Ok((Trees(FixedLengths(), FixedDistances()), pos))
    case 2 => ReadTrees(data, pos)
    case _ => Throws(InvalidBlockType)
  }

  function AfterItem(d: Decoder, item: Item, pos: nat): Decoder {
    d.(pos := pos, state := if item.EndOfBlock? then (if d.blockFinal then 2 else 0) else 1)
  }

  function DecodeInBlock(data: seq<byte>, d: Decoder): (r: Result<(Option<Item>, Decoder)>)
    requires ValidDecoder(data, d) && d.state == 1
    ensures r.Ok? ==> r.value.0.Some? && d.pos < r.value.1.pos && ValidDecoder(data, r.value.1)
  {
    var (item, p) :- ReadItem(d.trees, data, d.pos);
    Ok((Some(item), AfterItem(d, item, p)))
  }

  /** One call of decodeItem: None stands for null, returned after the final block. */
  function DecodeItem(data: seq<byte>, d: Decoder): (r: Result<(Option<Item>, Decoder)>)
    requires ValidDecoder(data, d)
    ensures r.Ok? ==> ValidDecoder(data, r.value.1)
    ensures r.Ok? && r.value.0.Some? ==> d.pos < r.value.1.pos
    ensures r.Ok? && r.value.0.None? ==> r.value.1 == d && d.state == 2
  {
    if d.state == 2 then Ok((None, d))
    else if d.state == 1 then DecodeInBlock(data, d)
    else
      var final :- PeekBit(data, d.pos);
      var blockType :- PeekLsb(data, d.pos + 1, 2);
      if blockType == 0 then
        var (item, p) :- ReadStored(data, d.pos + 3);
        Ok((Some(item), d.(pos := p, blockFinal := final, state := if final then 2 else 0)))
      else
        var (trees, p) :- BlockTrees(blockType, data, d.pos + 3);
        DecodeInBlock(data, Decoder(p, 1, final, trees))
  }

  // ----- Output -----

  /** An entry of the output buffer: reading outside the buffer gives undefined. */
  datatype Cell = Byte(value: byte) | Undefined

  function Bytes(s: seq<byte>): (r: seq<Cell>)
    ensures |r| == |s| && forall i :: 0 <= i < |s| ==> r[i] == Byte(s[i])
  {
    seq(|s|, i requires 0 <= i < |s| => Byte(s[i]))
  }

  function At(buffer: seq<Cell>, j: int): Cell {
    if 0 <= j < |buffer| then buffer[j] else Undefined
  }

  /** n rounds of `buffer.push(buffer[j++])`. */
  function CopyFrom(buffer: seq<Cell>, j: int, n: nat): (r: seq<Cell>)
    ensures buffer <= r && |r| == |buffer| + n
    decreases n
  {
    if n == 0 then buffer else CopyFrom(buffer + [At(buffer, j)], j + 1, n - 1)
  }

  /** The output after an item, given all output before it. */
  function Apply(history: seq<Cell>, item: Item): (r: seq<Cell>)
    ensures history <= r
  {
    match item
    case StoredItem(bytes) => history + Bytes(bytes)
    case EndOfBlock => history
    case Symbol(symbol) => history + [Byte(symbol)]
    case Copy(Some(distance), length) => CopyFrom(history, |history| - distance, length)
    case Copy(None, length) => history + seq(length, _ => Undefined)
  }

  /** Everything the stream expands to, given the output so far. */
  function Output(data: seq<byte>, d: Decoder, history: seq<Cell>): (r: Result<seq<Cell>>)
    requires ValidDecoder(data, d)
    ensures r.Ok? ==> history <= r.value
    decreases 8 * |data| - d.pos
  {
    var (item, d') :- DecodeItem(data, d);
    match item
    case None => Ok(history)
    case Some(i) => Output(data, d', Apply(history, i))
  }

  const START: Decoder := Decoder(0, 0, false, Trees([], []))

  /** Items decoded until there is output beyond the first `consumed` cells, or the stream ends. */
  function Fill(data: seq<byte>, d: Decoder, history: seq<Cell>, consumed: nat)
    : (r: Result<(Decoder, seq<Cell>)>)
    requires ValidDecoder(data, d)
    ensures r.Ok? ==> ValidDecoder(data, r.value.0) && history <= r.value.1
    decreases 8 * |data| - d.pos
  {
    if consumed < |history| then Ok((d, history))
    else
      var (item, d') :- DecodeItem(data, d);
      match item
      case None => Ok((d, history))
      case Some(i) => Fill(data, d', Apply(history, i), consumed)
  }

  /** Filling the buffer does not change what the stream expands to; it stops short of new output
      only when there is none. */
  lemma {:induction false} FillKeepsOutput(data: seq<byte>, d: Decoder, history: seq<Cell>, consumed: nat)
    requires ValidDecoder(data, d)
    ensures match Fill(data, d, history, consumed)
      case Throws(e) => Output(data, d, history) == Throws(e)
      case Ok((d', history')) =>
        && Output(data, d', history') == Output(data, d, history)
        && (|history'| <= consumed ==> Output(data, d, history) == Ok(history'))
    decreases 8 * |data| - d.pos
  {
    if consumed >= |history| {
      var r := DecodeItem(data, d);
      if r.Ok? && r.value.0.Some? {
        FillKeepsOutput(data, r.value.1, Apply(history, r.value.0.value), consumed);
      }
    }
  }
}
