/** The decompressor of deflate.js as reader objects with their fields: each method is proved to
    compute what module Inflate says, and the trimmed output buffer to lose nothing. */
module InflatorObjects {
  import opened Octets
  import opened Powers
  import opened Results
  import opened BitStreams
  import opened Huffman
  import opened Inflate
  import opened FixedCodes
  import opened Window

  /** Bits lead down a tree until there is a leaf. */
  method WalkTree(bitReader: BitReader, tree: Tree) returns (r: Result<nat>)
    requires bitReader.Valid()
    modifies bitReader, bitReader.reader
    ensures r.Ok? ==> bitReader.Valid()
    ensures match ReadSymbol(tree, bitReader.reader.data, old(bitReader.Cursor()))
      case Throws(e) => r == Throws(e)
      case Ok((symbol, pos)) => r == Ok(symbol) && bitReader.Cursor() == pos
  {
    var p := tree;
    while !p.Leaf?
      invariant bitReader.Valid()
      invariant ReadSymbol(tree, bitReader.reader.data, old(bitReader.Cursor()))
             == ReadSymbol(p, bitReader.reader.data, bitReader.Cursor())
      decreases p
    {
      if p.Null? {
        return Throws(TypeError);
      }
      var bit :- bitReader.ReadBit();
      p := if bit then p.one else p.zero;
    }
    r := Ok(p.index);
  }

  /** readDynamicTrees (deflate.js), up to the two length vectors, of which the first must not begin with an
      undefined length. */
  method ReadTreeLengths(bitReader: BitReader) returns (r: Result<Trees>)
    requires bitReader.Valid()
    modifies bitReader, bitReader.reader
    ensures r.Ok? ==> bitReader.Valid()
    ensures match ReadTrees(bitReader.reader.data, old(bitReader.Cursor()))
      case Throws(e) => r == Throws(e)
      case Ok((trees, pos)) => r == Ok(trees) && bitReader.Cursor() == pos
  {
    hide ReadLengths, CodeLengthLengths, LsbValue, CodeTree;
    ghost var data, start := bitReader.reader.data, bitReader.Cursor();
    var hlit :- bitReader.ReadLSB(5);
    hlit := hlit + 257;
    var hdist :- bitReader.ReadLSB(5);
    hdist := hdist + 1;
    var hclen :- bitReader.ReadLSB(4);
    hclen := hclen + 4;
    LsbBound(data, start + 10, 4);
    var clen :- ReadCodeLengthLengths(bitReader, hclen);
    var lens :- ReadLengthSequence(bitReader, clen, hlit + hdist);
    if lens[0] == UNDEFINED {
      return Throws(RangeError);
    }
    r := Ok(Trees(lens[..hlit], lens[hlit..hlit + hdist]));
  }

  method ReadCodeLengthLengths(bitReader: BitReader, hclen: nat) returns (r: Result<seq<nat>>)
    requires bitReader.Valid() && hclen <= 19
    modifies bitReader, bitReader.reader
    ensures bitReader.Valid()
    ensures r.Ok? ==>
      && old(bitReader.Cursor()) + 3 * hclen <= 8 * |bitReader.reader.data|
      && r.value == CodeLengthLengths(bitReader.reader.data, old(bitReader.Cursor()), hclen)
      && bitReader.Cursor() == old(bitReader.Cursor()) + 3 * hclen
    ensures r.Throws? ==>
      r.exception == UnexpectedEnd && old(bitReader.Cursor()) + 3 * hclen > 8 * |bitReader.reader.data|
  {
    hide CLEN_MAP;
    var clen := seq(19, _ => 0);
    for i := 0 to hclen
      invariant bitReader.Valid()
      invariant bitReader.Cursor() == old(bitReader.Cursor()) + 3 * i <= 8 * |bitReader.reader.data|
      invariant clen == CodeLengthLengths(bitReader.reader.data, old(bitReader.Cursor()), i)
    {
      ClenMapBound(i);
      var length :- bitReader.ReadLSB(3);
      clen := clen[CLEN_MAP[i] := length];
    }
    r := Ok(clen);
  }

  method ReadLengthSequence(bitReader: BitReader, clen: seq<nat>, total: nat) returns (r: Result<seq<nat>>)
    requires bitReader.Valid() && |clen| == 19
    requires forall i :: 0 <= i < |clen| ==> clen[i] <= MAX_CODE_LENGTH
    modifies bitReader, bitReader.reader
    ensures r.Ok? ==> bitReader.Valid()
    ensures match ReadLengths(clen, bitReader.reader.data, old(bitReader.Cursor()), [], total)
      case Throws(e) => r == Throws(e)
      case Ok((lens, pos)) => r == Ok(lens) && bitReader.Cursor() == pos
  {
    hide CodeTree, ReadSymbol, ReadRun;
    var clenCodes := BuildCodes(clen);
    var clenTree := BuildTree(clenCodes, clen);
    var lengthsSequence: seq<nat> := [];
    while |lengthsSequence| < total
      invariant bitReader.Valid()
      invariant ReadLengths(clen, bitReader.reader.data, old(bitReader.Cursor()), [], total)
             == ReadLengths(clen, bitReader.reader.data, bitReader.Cursor(), lengthsSequence, total)
      decreases total - |lengthsSequence|
    {
      ghost var pos := bitReader.Cursor();
      var code :- WalkTree(bitReader, clenTree);
      SymbolInTree(clen, bitReader.reader.data, pos);
      lengthsSequence :- PushRun(bitReader, code, lengthsSequence);
    }
    r := Ok(lengthsSequence);
  }

  method PushRun(bitReader: BitReader, code: nat, lengthsSequence: seq<nat>) returns (r: Result<seq<nat>>)
    requires bitReader.Valid() && code <= 18
    modifies bitReader, bitReader.reader
    ensures r.Ok? ==> bitReader.Valid()
    ensures match ReadRun(code, bitReader.reader.data, old(bitReader.Cursor()), lengthsSequence)
      case Throws(e) => r == Throws(e)
      case Ok((lens, pos)) => r == Ok(lens) && bitReader.Cursor() == pos
  {
    if code <= 15 {
      r := Ok(lengthsSequence + [code]);
    } else if code == 16 {
      var extra :- bitReader.ReadLSB(2);
      var lens := PushRepeated(lengthsSequence, LastLength(lengthsSequence), extra + 3);
      r := Ok(lens);
    } else if code == 17 {
      var extra :- bitReader.ReadLSB(3);
      var lens := PushRepeated(lengthsSequence, 0, extra + 3);
      r := Ok(lens);
    } else {
      var extra :- bitReader.ReadLSB(7);
      var lens := PushRepeated(lengthsSequence, 0, extra + 11);
      r := Ok(lens);
    }
  }

  method PushRepeated(s: seq<nat>, x: nat, n: nat) returns (r: seq<nat>)
    ensures r == s + Repeat(x, n)
  {
    r := s;
    for q := 0 to n
      invariant r == s + Repeat(x, q)
    {
      r := r + [x];
    }
  }

  /** A walk can only find symbols that the lengths were given for. */
  lemma SymbolInTree(lens: seq<nat>, data: seq<byte>, pos: nat)
    ensures var r := ReadSymbol(CodeTree(lens), data, pos); r.Ok? ==> r.value.0 < |lens|
  {
    SymbolInNode(lens, 0, 0, data, pos);
  }

  lemma {:induction false} SymbolInNode(lens: seq<nat>, p: nat, l: nat, data: seq<byte>, pos: nat)
    requires l <= MaxLength(lens) && FirstCode(lens, l) <= p
    ensures var r := ReadSymbol(Node(lens, p, l), data, pos); r.Ok? ==> r.value.0 < |lens|
    decreases MaxLength(lens) - l
  {
    if Node(lens, p, l).Branch? {
      SymbolInNode(lens, 2 * p, l + 1, data, pos + 1);
      SymbolInNode(lens, 2 * p + 1, l + 1, data, pos + 1);
    }
  }

  /** A table entry, plus additional bits when the table asks for any. */
  method ReadAdditional(bitReader: BitReader, start: nat, bits: nat) returns (r: Result<nat>)
    requires bitReader.Valid()
    modifies bitReader, bitReader.reader
    ensures r.Ok? ==> bitReader.Valid()
    ensures match ReadExtended(bitReader.reader.data, old(bitReader.Cursor()), start, bits)
      case Throws(e) => r == Throws(e)
      case Ok((value, pos)) => r == Ok(value) && bitReader.Cursor() == pos
  {
    var value := start;
    if bits > 0 {
      var extra :- bitReader.ReadLSB(bits);
      value := value + extra;
    }
    r := Ok(value);
  }

  method ReadDistanceItem(bitReader: BitReader, distancesTree: Tree, ghost distances: seq<nat>)
    returns (r: Result<Option<nat>>)
    requires bitReader.Valid() && distancesTree == CodeTree(distances)
    modifies bitReader, bitReader.reader
    ensures r.Ok? ==> bitReader.Valid()
    ensures match ReadDistance(distances, bitReader.reader.data, old(bitReader.Cursor()))
      case Throws(e) => r == Throws(e)
      case Ok((distance, pos)) => r == Ok(distance) && bitReader.Cursor() == pos
  {
    hide CodeTree, ReadSymbol, ReadExtended;
    var distanceCode :- WalkTree(bitReader, distancesTree);
    if distanceCode < |DISTANCE_START| {
      var distance :- ReadAdditional(bitReader, DISTANCE_START[distanceCode], DISTANCE_ADDITIONAL_BITS[distanceCode]);
      return Ok(Some(distance));
    }
    r := Ok(None);
  }

  /** Each byte returned either leaves fewer waiting, or has taken more bits to decode. */
  ghost predicate Progress(before: (nat, int), after: (nat, int)) {
    before.0 < after.0 || (before.0 == after.0 && after.1 < before.1)
  }

  /** decodeItem case by case. */
  lemma DecodeItemCases(data: seq<byte>, d: Decoder)
    requires ValidDecoder(data, d)
    ensures d.state == 2 ==> DecodeItem(data, d) == Ok((None, d))
    ensures d.state == 1 ==> DecodeItem(data, d) == DecodeInBlock(data, d)
    ensures d.state == 0 ==>
      var final, blockType := PeekBit(data, d.pos), PeekLsb(data, d.pos + 1, 2);
      if final.Throws? then DecodeItem(data, d) == Throws(final.exception)
      else if blockType.Throws? then DecodeItem(data, d) == Throws(blockType.exception)
      else if blockType.value == 0 then
        match ReadStored(data, d.pos + 3)
        case Throws(e) => DecodeItem(data, d) == Throws(e)
        case Ok((item, p)) =>
          DecodeItem(data, d) == Ok((Some(item),
            d.(pos := p, blockFinal := final.value, state := if final.value then 2 else 0)))
      else
        match BlockTrees(blockType.value, data, d.pos + 3)
        case Throws(e) => DecodeItem(data, d) == Throws(e)
        case Ok((trees, p)) =>
          var inside := Decoder(p, 1, final.value, trees);
          ValidDecoder(data, inside) && DecodeItem(data, d) == DecodeInBlock(data, inside)
  {
    hide PeekBit, LsbValue, ReadStored, BlockTrees, DecodeInBlock, WellSized;
  }

  lemma BlockTreesCases(blockType: nat, data: seq<byte>, pos: nat)
    ensures blockType == 1 ==> BlockTrees(blockType, data, pos) == Ok((Trees(FixedLengths(), FixedDistances()), pos))
    ensures blockType == 2 ==> BlockTrees(blockType, data, pos) == ReadTrees(data, pos)
    ensures blockType != 1 && blockType != 2 ==> BlockTrees(blockType, data, pos) == Throws(InvalidBlockType)
  {
    hide FixedLengths, FixedDistances, ReadTrees, WellSized;
  }

  lemma WellSizedLengths(t: Trees)
    requires WellSized(t)
    ensures forall i :: 0 <= i < |t.lengths| ==> t.lengths[i] <= MAX_CODE_LENGTH
    ensures forall i :: 0 <= i < |t.distances| ==> t.distances[i] <= MAX_CODE_LENGTH
    ensures t.lengths != [] && t.distances != []
  {
  }

  class Inflator {
    const reader: ByteReader
    const bitReader: BitReader
    const staticCodes: Tree
    const staticDistances: Tree
    var buffer: seq<Cell>
    var bufferPosition: nat
    var state: nat
    var blockFinal: bool
    var codesTree: Tree
    var distancesTree: Tree

    ghost var trees: Trees         // the lengths that the two trees were built from
    ghost var trimmed: seq<Cell>   // the output that is no longer in the buffer

    /** The decoder as a value. */
    ghost function Decoding(): Decoder
      requires bitReader.Valid()
      reads this, bitReader, bitReader.reader
    {
      Decoder(bitReader.Cursor(), state, blockFinal, trees)
    }

    ghost predicate ValidDecoding()
      reads this, reader, bitReader, bitReader.reader
    {
      && bitReader.reader == reader
      && bitReader.Valid()
      && ValidDecoder(reader.data, Decoding())
      && (state == 1 ==> codesTree == CodeTree(trees.lengths) && distancesTree == CodeTree(trees.distances))
      && staticCodes == CodeTree(FixedLengths())
      && staticDistances == CodeTree(FixedDistances())
    }

    /** Everything decoded so far. */
    ghost function History(): seq<Cell>
      reads this
    {
      trimmed + buffer
    }

    /** How much of it has been read. */
    ghost function Consumed(): nat
      reads this
    {
      |trimmed| + bufferPosition
    }

    /** The buffer is never shorter than a window once it has been trimmed, nor very long. */
    ghost predicate ValidWindow()
      reads this
    {
      && LongEnough(trimmed, buffer)
      && bufferPosition <= |buffer| && bufferPosition <= 0xC000 && |buffer| <= 0xC000 + 0xFFFF
    }

    ghost predicate Valid()
      reads this, reader, bitReader, bitReader.reader
    {
      ValidDecoding() && ValidWindow()
    }

    /** What remains to be read: the rest of the expansion, or the exception that will cut it. */
    ghost function Expansion(): Result<seq<Cell>>
      requires Valid()
      reads this, reader, bitReader, bitReader.reader
    {
      Output(reader.data, Decoding(), History())
    }

    constructor (reader: ByteReader)
      requires reader.position == 0
      ensures Valid() && this.reader == reader && fresh(bitReader)
      ensures Decoding() == START && History() == [] && Consumed() == 0
    {
      hide CodeTree, FixedLengths, FixedDistances;
      this.reader := reader;
      bitReader := new BitReader(reader);
      var codes, distances := InitializeStaticTrees();
      staticCodes, staticDistances := codes, distances;
      buffer, bufferPosition := [], 0;
      state, blockFinal := 0, false;
      codesTree, distancesTree := Null, Null;
      trees, trimmed := Trees([], []), [];
    }

    method DecodeItem() returns (r: Result<Option<Item>>)
      requires ValidDecoding()
      modifies this`state, this`blockFinal, this`codesTree, this`distancesTree, this`trees, bitReader, reader
      ensures r.Ok? ==> ValidDecoding()
      ensures match Inflate.DecodeItem(reader.data, old(Decoding()))
        case Throws(e) => r == Throws(e)
        case Ok((item, d)) => r == Ok(item) && Decoding() == d
    {
      hide CodeTree, FixedLengths, FixedDistances, BlockTrees, ReadStored, Inflate.DecodeInBlock, LsbValue, WellSized;
      hide Inflate.DecodeItem, PeekLsb, PeekBit;
      DecodeItemCases(reader.data, Decoding());
      if state == 2 {
        return Ok(None);
      }
      if state == 0 {
        blockFinal :- bitReader.ReadBit();
        var blockType :- bitReader.ReadLSB(2);
        if blockType == 0 {
          var item :- ReadStoredBlock();
          state := if blockFinal then 2 else 0;
          return Ok(Some(item));
        }
        var done :- OpenBlock(blockType);
      }
      r := DecodeInBlock();
    }

    /** The rest of decodeItem, inside a compressed block. */
    method DecodeInBlock() returns (r: Result<Option<Item>>)
      requires ValidDecoding() && state == 1
      modifies this`state, bitReader, reader
      ensures r.Ok? ==> ValidDecoding()
      ensures match Inflate.DecodeInBlock(reader.data, old(Decoding()))
        case Throws(e) => r == Throws(e)
        case Ok((item, d)) => r == Ok(item) && Decoding() == d
    {
      hide CodeTree, FixedLengths, FixedDistances, ReadItem, WellSized;
      var item :- ReadBlockItem();
      if item == EndOfBlock {
        state := if blockFinal then 2 else 0;
      }
      r := Ok(Some(item));
    }

    /** The compressed-block cases of a block header. */
    method OpenBlock(blockType: nat) returns (r: Result<()>)
      requires ValidDecoding()
      modifies this`state, this`codesTree, this`distancesTree, this`trees, bitReader, reader
      ensures r.Ok? ==> ValidDecoding()
      ensures match BlockTrees(blockType, reader.data, old(bitReader.Cursor()))
        case Throws(e) => r == Throws(e)
        case Ok((t, pos)) => r == Ok(()) && Decoding() == Decoder(pos, 1, blockFinal, t)
    {
      hide CodeTree, Code, FixedLengths, FixedDistances, ReadTrees, WellSized, BlockTrees;
      BlockTreesCases(blockType, reader.data, bitReader.Cursor());
      if blockType == 1 {
        codesTree, distancesTree := staticCodes, staticDistances;
        trees := Trees(FixedLengths(), FixedDistances());
        FixedWellSized();
        state := 1;
      } else if blockType == 2 {
        var lens :- ReadTreeLengths(bitReader);
        WellSizedLengths(lens);
        var codes := BuildCodes(lens.lengths);
        var distances := BuildCodes(lens.distances);
        codesTree := BuildTree(codes, lens.lengths);
        distancesTree := BuildTree(distances, lens.distances);
        trees := lens;
        state := 1;
      } else {
        return Throws(InvalidBlockType);
      }
      r := Ok(());
    }

    /** The stored-block case of decodeItem. */
    method ReadStoredBlock() returns (r: Result<Item>)
      requires bitReader.reader == reader && bitReader.Valid()
      modifies bitReader, reader
      ensures r.Ok? ==> bitReader.Valid() && bitReader.bitsLength == 0
      ensures match ReadStored(reader.data, old(bitReader.Cursor()))
        case Throws(e) => r == Throws(e)
        case Ok((item, pos)) => r == Ok(item) && bitReader.Cursor() == pos
    {
      hide LsbValue, AndNot;
      bitReader.Align();
      var len :- bitReader.ReadLSB(16);
      var nlen :- bitReader.ReadLSB(16);
      if AndNot(len, nlen) != len {
        return Throws(InvalidStoredLength);
      }
      ghost var first := reader.position;
      var bytes: seq<byte> := [];
      for i := 0 to len
        invariant bitReader.Valid() && bitReader.bitsLength == 0
        invariant reader.position == first + i
        invariant bytes == reader.data[first..first + i]
      {
        var nextByte := reader.ReadByte();
        if nextByte < 0 {
          return Throws(UncompleteBlock);
        }
        bytes := bytes + [nextByte];
      }
      r := Ok(StoredItem(bytes));
    }

    /** The compressed-block half of decodeItem. */
    method ReadBlockItem() returns (r: Result<Item>)
      requires ValidDecoding() && state == 1
      modifies bitReader, reader
      ensures r.Ok? ==> bitReader.Valid()
      ensures match ReadItem(trees, reader.data, old(bitReader.Cursor()))
        case Throws(e) => r == Throws(e)
        case Ok((item, pos)) => r == Ok(item) && bitReader.Cursor() == pos
    {
      hide CodeTree, ReadSymbol, ReadExtended, ReadDistance, WellSized, FixedLengths, FixedDistances;
      var code :- WalkTree(bitReader, codesTree);
      if code < 256 {
        return Ok(Symbol(code));
      }
      if code == 256 {
        return Ok(EndOfBlock);
      }
      if code > 285 {
        return Throws(InvalidLengthCode);
      }
      var length :- ReadAdditional(bitReader, LENGTH_START[code - 257], LENGTH_ADDITIONAL_BITS[code - 257]);
      var distance :- ReadDistanceItem(bitReader, distancesTree, trees.distances);
      r := Ok(Copy(distance, length));
    }

    /** How far reading has got: bits read, and cells that are decoded but not yet returned. */
    ghost function Progressed(): (nat, int)
      requires bitReader.Valid()
      reads this, bitReader, bitReader.reader
    {
      (bitReader.Cursor(), |buffer| - bufferPosition)
    }

    /** readByte: the next byte of the expansion, or None (-1 in the original) after the last. An
        undefined cell is what the original returns for a copy from before the start. */
    method ReadByte() returns (r: Result<Option<Cell>>)
      requires Valid()
      modifies this, bitReader, reader
      ensures r.Ok? ==> Valid()
      ensures match old(Expansion())
        case Throws(e) =>
          r == Throws(e) || (r.Ok? && r.value.Some? && Consumed() == old(Consumed()) + 1 && Expansion() == Throws(e))
        case Ok(out) =>
          && r.Ok? && Expansion() == Ok(out)
          && (if old(Consumed()) < |out|
              then r == Ok(Some(out[old(Consumed())])) && Consumed() == old(Consumed()) + 1
              else r == Ok(None) && Consumed() == old(Consumed()))
      ensures r.Ok? ==> old(History()) <= History()
      ensures r.Ok? && r.value.Some? ==> old(Consumed()) < |History()| && r.value.value == History()[old(Consumed())]
      ensures r.Ok? && r.value.Some? ==> Progress(old(Progressed()), Progressed())
    {
      hide Fill, Output, ValidDecoder, FixedLengths, FixedDistances, CodeTree;
      FillKeepsOutput(reader.data, Decoding(), History(), Consumed());
      var filled :- FillBuffer();
      if !filled {
        return Ok(None);
      }
      var symbol := buffer[bufferPosition];
      bufferPosition := bufferPosition + 1;
      if bufferPosition > 0xC000 {
        var shift := |buffer| - 0x8000;
        if shift > bufferPosition {
          shift := bufferPosition;
        }
        Trim(trimmed, buffer, shift);
        trimmed := trimmed + buffer[..shift];
        buffer := buffer[shift..];
        bufferPosition := bufferPosition - shift;
      }
      r := Ok(Some(symbol));
    }

    /** The first loop of readByte; false when the stream has ended. */
    method FillBuffer() returns (r: Result<bool>)
      requires Valid()
      modifies this, bitReader, reader
      ensures r.Ok? ==> Valid() && Consumed() == old(Consumed())
      ensures match Fill(reader.data, old(Decoding()), old(History()), old(Consumed()))
        case Throws(e) => r == Throws(e)
        case Ok((d, h)) => r == Ok(Consumed() < |h|) && Decoding() == d && History() == h
      ensures r.Ok? ==> old(bitReader.Cursor()) <= bitReader.Cursor()
      ensures r.Ok? && old(bitReader.Cursor()) == bitReader.Cursor() ==> Progressed() == old(Progressed())
    {
      hide Inflate.DecodeItem, Apply, ValidDecoder, Bounded, FixedLengths, FixedDistances, CodeTree;
      while bufferPosition >= |buffer|
        invariant Valid() && Consumed() == old(Consumed())
        invariant old(bitReader.Cursor()) <= bitReader.Cursor()
        invariant old(bitReader.Cursor()) == bitReader.Cursor() ==> Progressed() == old(Progressed())
        invariant Fill(reader.data, old(Decoding()), old(History()), Consumed())
               == Fill(reader.data, Decoding(), History(), Consumed())
        decreases 8 * |reader.data| - bitReader.Cursor()
      {
        ItemsAreBounded(reader.data, Decoding());
        var next :- DecodeItem();
        if next == None {
          return Ok(false);
        }
        ApplyInWindow(trimmed, buffer, next.value);
        buffer := AppendItem(buffer, next.value);
      }
      r := Ok(true);
    }
  }

  /** The text read from `start` on, and the character that comes next, are those of the expansion. */
  ghost predicate ReadSoFar(expansion: Result<seq<Cell>>, start: nat, text: seq<Cell>, ch: Option<Cell>) {
    match expansion
    case Throws(_) => ch.Some?
    case Ok(out) =>
      && start + |text| <= |out| && out[start..start + |text|] == text
      && (if ch.Some? then start + |text| < |out| && ch.value == out[start + |text|]
          else start + |text| == |out|)
  }

  lemma ReadOneMore(expansion: Result<seq<Cell>>, start: nat, text: seq<Cell>, ch: Cell, next: Option<Cell>)
    requires ReadSoFar(expansion, start, text, Some(ch))
    requires match expansion
      case Throws(_) => next.Some?
      case Ok(out) => next == if start + |text| + 1 < |out| then Some(out[start + |text| + 1]) else None
    ensures ReadSoFar(expansion, start, text + [ch], next)
  {
  }

  /** readToEnd of TextReader over DefaultTranslator: reads until there is no more, collecting the
      text in pieces. */
  method ReadToEnd(inflator: Inflator) returns (r: Result<seq<Cell>>)
    requires inflator.Valid()
    modifies inflator, inflator.bitReader, inflator.reader
    ensures match old(inflator.Expansion())
      case Throws(e) => r == Throws(e)
      case Ok(out) => r == Ok(out[old(inflator.Consumed())..])
  {
    hide Output, CodeTree, FixedLengths, FixedDistances, WellSized;
    ghost var start, expansion := inflator.Consumed(), inflator.Expansion();
    var large: seq<Cell>, s: seq<Cell> := [], [];
    var ch :- inflator.ReadByte();
    while ch.Some?
      invariant inflator.Valid() && inflator.Expansion() == expansion
      invariant ReadSoFar(expansion, start, large + s, ch)
      invariant ch.Some? ==> inflator.Consumed() == start + |large + s| + 1
      decreases ch.Some?, 8 * |inflator.reader.data| - inflator.bitReader.Cursor(),
        |inflator.buffer| - inflator.bufferPosition
    {
      ghost var text, last := large + s, ch.value;
      s := s + [ch.value];
      assert large + s == text + [ch.value];
      if |s| > 1000 {
        large, s := large + s, [];
        assert large + s == text + [ch.value];
      }
      ch :- inflator.ReadByte();
      ReadOneMore(expansion, start, text, last, ch);
    }
    assert expansion.value[start..] == expansion.value[start..start + |large + s|];
    r := Ok(large + s);
  }

  /** The switch of readByte: what an item appends to the buffer. */
  method AppendItem(buffer: seq<Cell>, item: Item) returns (r: seq<Cell>)
    ensures r == Apply(buffer, item)
  {
    r := buffer;
    match item
    case StoredItem(bytes) => r := r + Bytes(bytes);
    case EndOfBlock =>
    case Symbol(symbol) => r := r + [Byte(symbol)];
    case Copy(Some(distance), length) =>
      var j := |r| - distance;
      for i := 0 to length
        invariant CopyFrom(buffer, |buffer| - distance, length) == CopyFrom(r, j, length - i)
      {
        r := r + [At(r, j)];
        j := j + 1;
      }
    case Copy(None, length) =>
      for i := 0 to length
        invariant r == buffer + seq(i, _ => Undefined)
      {
        r := r + [Undefined];
      }
  }
}
