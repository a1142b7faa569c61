/** The compressed format of RFC 1951 from the writer's side: what a stream of blocks is, which bits
    it is written as, and what it stands for. This is the independent reference that the round-trip
    theorem holds the decoder against; deflate.js itself has no encoder. */
module Deflate {
  import opened Octets
  import opened Powers
  import opened BitStreams
  import opened Huffman
  import opened Inflate

  // ----- Bits -----

  /** The n low bits of v, least significant first. */
  function LsbBits(v: nat, n: nat): (bits: seq<bool>)
    ensures |bits| == n
  {
    if n == 0 then [] else [v % 2 == 1] + LsbBits(v / 2, n - 1)
  }

  ghost predicate HasBits(data: seq<byte>, pos: nat, bits: seq<bool>) {
    pos + |bits| <= 8 * |data| && forall i :: 0 <= i < |bits| ==> Bit(data, pos + i) == bits[i]
  }

  /** The symbol has a code, and the code fits its length. */
  ghost predicate Usable(lens: seq<nat>, s: nat) {
    s < |lens| && lens[s] > 0 && Fits(lens, s)
  }

  ghost function SymbolBits(lens: seq<nat>, s: nat): seq<bool>
    requires Usable(lens, s)
  {
    CodeBits(Code(lens, s), lens[s])
  }

  // ----- Compressed data -----

  /** A literal byte, or a copy given by its length and distance symbols and their additional bits. */
  datatype Token =
    | Literal(value: byte)
    | Match(lengthCode: nat, lengthExtra: nat, distanceCode: nat, distanceExtra: nat)

  ghost predicate ValidToken(trees: Trees, token: Token, produced: nat) {
    match token
    case Literal(value) => Usable(trees.lengths, value)
    case Match(lc, le, dc, de) =>
      && lc < |LENGTH_START| && le < Pow2(LENGTH_ADDITIONAL_BITS[lc]) && Usable(trees.lengths, 257 + lc)
      && dc < |DISTANCE_START| && de < Pow2(DISTANCE_ADDITIONAL_BITS[dc]) && Usable(trees.distances, dc)
      && DISTANCE_START[dc] + de <= produced
  }

  ghost function TokenBits(trees: Trees, token: Token, produced: nat): seq<bool>
    requires ValidToken(trees, token, produced)
  {
    match token
    case Literal(value) => SymbolBits(trees.lengths, value)
    case Match(lc, le, dc, de) =>
      SymbolBits(trees.lengths, 257 + lc) + (LsbBits(le, LENGTH_ADDITIONAL_BITS[lc])
        + (SymbolBits(trees.distances, dc) + LsbBits(de, DISTANCE_ADDITIONAL_BITS[dc])))
  }

  /** The copied string repeats itself when it is longer than its distance. */
  function Overlap(output: seq<byte>, distance: nat, length: nat): (r: seq<byte>)
    requires 1 <= distance <= |output|
    ensures |r| == |output| + length
  {
    output + seq(length, i requires 0 <= i < length => output[|output| - distance + i % distance])
  }

  ghost function Expand(trees: Trees, token: Token, output: seq<byte>): (r: seq<byte>)
    requires ValidToken(trees, token, |output|)
  {
    match token
    case Literal(value) => output + [value]
    case Match(lc, le, dc, de) =>
      DistancePositive(dc);
      Overlap(output, DISTANCE_START[dc] + de, LENGTH_START[lc] + le)
  }

  lemma DistancePositive(dc: nat)
    requires dc < |DISTANCE_START|
    ensures 1 <= DISTANCE_START[dc]
  {
  }

  ghost predicate ValidTokens(trees: Trees, tokens: seq<Token>, output: seq<byte>) {
    if tokens == [] then Usable(trees.lengths, 256)
    else
      && ValidToken(trees, tokens[0], |output|)
      && ValidTokens(trees, tokens[1..], Expand(trees, tokens[0], output))
  }

  ghost function TokensBits(trees: Trees, tokens: seq<Token>, output: seq<byte>): seq<bool>
    requires ValidTokens(trees, tokens, output)
  {
    if tokens == [] then SymbolBits(trees.lengths, 256)
    else
      TokenBits(trees, tokens[0], |output|)
        + TokensBits(trees, tokens[1..], Expand(trees, tokens[0], output))
  }

  ghost function ExpandTokens(trees: Trees, tokens: seq<Token>, output: seq<byte>): seq<byte>
    requires ValidTokens(trees, tokens, output)
  {
    if tokens == [] then output
    else ExpandTokens(trees, tokens[1..], Expand(trees, tokens[0], output))
  }

  // ----- Dynamic headers -----

  /** One code-length code: a length, a repeat of the previous one, or a run of zeros. */
  datatype Run = Length(length: nat) | Previous(extra: nat) | Zeros(extra: nat) | ManyZeros(extra: nat)

  function RunCode(run: Run): nat {
    match run
    case Length(length) => length
    case Previous(_) => 16
    case Zeros(_) => 17
    case ManyZeros(_) => 18
  }

  ghost predicate ValidRun(clen: seq<nat>, run: Run, lens: seq<nat>) {
    && Usable(clen, RunCode(run))
    && match run
       case Length(length) => length <= 15
       case Previous(extra) => extra < Pow2(2) && lens != []
       case Zeros(extra) => extra < Pow2(3)
       case ManyZeros(extra) => extra < Pow2(7)
  }

  ghost function RunBits(clen: seq<nat>, run: Run, lens: seq<nat>): seq<bool>
    requires ValidRun(clen, run, lens)
  {
    SymbolBits(clen, RunCode(run)) +
    match run
    case Length(_) => []
    case Previous(extra) => LsbBits(extra, 2)
    case Zeros(extra) => LsbBits(extra, 3)
    case ManyZeros(extra) => LsbBits(extra, 7)
  }

  ghost function AddRun(clen: seq<nat>, run: Run, lens: seq<nat>): (r: seq<nat>)
    requires ValidRun(clen, run, lens)
    ensures |lens| < |r| && (lens == [] || lens[0] <= 15 ==> r[0] <= 15)
  {
    match run
    case Length(length) => lens + [length]
    case Previous(extra) => lens + Repeat(lens[|lens| - 1], extra + 3)
    case Zeros(extra) => lens + Repeat(0, extra + 3)
    case ManyZeros(extra) => lens + Repeat(0, extra + 11)
  }

  ghost predicate ValidRuns(clen: seq<nat>, runs: seq<Run>, lens: seq<nat>, total: nat) {
    if runs == [] then |lens| == total
    else
      && ValidRun(clen, runs[0], lens)
      && ValidRuns(clen, runs[1..], AddRun(clen, runs[0], lens), total)
  }

  ghost function RunsBits(clen: seq<nat>, runs: seq<Run>, lens: seq<nat>, total: nat): seq<bool>
    requires ValidRuns(clen, runs, lens, total)
  {
    if runs == [] then []
    else
      RunBits(clen, runs[0], lens) + RunsBits(clen, runs[1..], AddRun(clen, runs[0], lens), total)
  }

  ghost function AddRuns(clen: seq<nat>, runs: seq<Run>, lens: seq<nat>, total: nat): (r: seq<nat>)
    requires ValidRuns(clen, runs, lens, total)
    ensures |r| == total && (r != [] && (lens == [] || lens[0] <= 15) ==> r[0] <= 15)
  {
    if runs == [] then lens else AddRuns(clen, runs[1..], AddRun(clen, runs[0], lens), total)
  }

  /** hlit and hdist count the two vectors, the first hclen code-length lengths are sent. */
  datatype Header = Header(hlit: nat, hdist: nat, hclen: nat, clen: seq<nat>, runs: seq<Run>)

  ghost predicate ValidHeader(h: Header) {
    && 257 <= h.hlit <= 288 && 1 <= h.hdist <= 32 && 4 <= h.hclen <= 19
    && |h.clen| == 19 && (forall i :: 0 <= i < 19 ==> h.clen[i] < Pow2(3))
    && (forall i :: h.hclen <= i < 19 ==> h.clen[CLEN_MAP[i]] == 0)
    && ValidRuns(h.clen, h.runs, [], h.hlit + h.hdist)
  }

  ghost function HeaderTrees(h: Header): Trees
    requires ValidHeader(h)
  {
    var lens := AddRuns(h.clen, h.runs, [], h.hlit + h.hdist);
    Trees(lens[..h.hlit], lens[h.hlit..])
  }

  ghost function ClenBits(clen: seq<nat>, n: nat): (bits: seq<bool>)
    requires |clen| == 19 && n <= 19
    ensures |bits| == 3 * n
  {
    if n == 0 then [] else ClenBits(clen, n - 1) + LsbBits(clen[CLEN_MAP[n - 1]], 3)
  }

  ghost function HeaderBits(h: Header): seq<bool>
    requires ValidHeader(h)
  {
    LsbBits(h.hlit - 257, 5) + (LsbBits(h.hdist - 1, 5) + (LsbBits(h.hclen - 4, 4)
      + (ClenBits(h.clen, h.hclen) + RunsBits(h.clen, h.runs, [], h.hlit + h.hdist))))
  }

  // ----- Blocks -----

  /** A stored block carries its own padding bits, which a reader ignores. */
  datatype Block =
    | Stored(padding: seq<bool>, bytes: seq<byte>)
    | Fixed(tokens: seq<Token>)
    | Dynamic(header: Header, tokens: seq<Token>)

  ghost function BlockTreesOf(b: Block): Trees
    requires b.Dynamic? ==> ValidHeader(b.header)
  {
    if b.Dynamic? then HeaderTrees(b.header) else Trees(FixedLengths(), FixedDistances())
  }

  ghost predicate ValidBlock(b: Block, pos: nat, output: seq<byte>) {
    match b
    case Stored(padding, bytes) => |padding| == AlignUp(pos + 3) - (pos + 3) && |bytes| <= 0xFFFF
    case Fixed(tokens) => ValidTokens(BlockTreesOf(b), tokens, output)
    case Dynamic(header, tokens) => ValidHeader(header) && ValidTokens(BlockTreesOf(b), tokens, output)
  }

  ghost function BytesBits(bytes: seq<byte>): (bits: seq<bool>)
    ensures |bits| == 8 * |bytes|
  {
    if bytes == [] then [] else LsbBits(bytes[0], 8) + BytesBits(bytes[1..])
  }

  /** The length, its one's complement, and the bytes of a stored block. */
  ghost function StoredBits(bytes: seq<byte>): (bits: seq<bool>)
    requires |bytes| <= 0xFFFF
    ensures |bits| == 32 + 8 * |bytes|
  {
    LsbBits(|bytes|, 16) + (LsbBits(0xFFFF - |bytes|, 16) + BytesBits(bytes))
  }

  ghost function BlockBits(b: Block, final: bool, pos: nat, output: seq<byte>): seq<bool>
    requires ValidBlock(b, pos, output)
  {
    match b
    case Stored(padding, bytes) =>
      [final] + (LsbBits(0, 2) + (padding + StoredBits(bytes)))
    case Fixed(tokens) => [final] + (LsbBits(1, 2) + TokensBits(BlockTreesOf(b), tokens, output))
    case Dynamic(header, tokens) =>
      [final] + (LsbBits(2, 2) + (HeaderBits(header) + TokensBits(BlockTreesOf(b), tokens, output)))
  }

  ghost function ExpandBlock(b: Block, pos: nat, output: seq<byte>): seq<byte>
    requires ValidBlock(b, pos, output)
  {
    if b.Stored? then output + b.bytes else ExpandTokens(BlockTreesOf(b), b.tokens, output)
  }

  /** Where the next block starts. */
  ghost function BlockEnd(b: Block, pos: nat, output: seq<byte>): nat
    requires ValidBlock(b, pos, output)
  {
    pos + |BlockBits(b, false, pos, output)|
  }

  /** The blocks of a stream; the last one is marked final. */
  datatype Stream = Final(block: Block) | More(block: Block, rest: Stream)

  ghost predicate ValidBlocks(s: Stream, pos: nat, output: seq<byte>) {
    && ValidBlock(s.block, pos, output)
    && (s.More? ==> ValidBlocks(s.rest, BlockEnd(s.block, pos, output), ExpandBlock(s.block, pos, output)))
  }

  /** The blocks, written from bit position pos on, after the given output. */
  ghost function BlocksBits(s: Stream, pos: nat, output: seq<byte>): seq<bool>
    requires ValidBlocks(s, pos, output)
  {
    match s
    case Final(b) => BlockBits(b, true, pos, output)
    case More(b, rest) =>
      BlockBits(b, false, pos, output)
        + BlocksBits(rest, BlockEnd(b, pos, output), ExpandBlock(b, pos, output))
  }

  ghost function ExpandBlocks(s: Stream, pos: nat, output: seq<byte>): seq<byte>
    requires ValidBlocks(s, pos, output)
  {
    match s
    case Final(b) => ExpandBlock(b, pos, output)
    case More(b, rest) => ExpandBlocks(rest, BlockEnd(b, pos, output), ExpandBlock(b, pos, output))
  }

  // ----- Bytes -----

  function BitsValue(bits: seq<bool>): nat {
    if bits == [] then 0 else (if bits[0] then 1 else 0) + 2 * BitsValue(bits[1..])
  }

  lemma {:induction false} BitsValueBound(bits: seq<bool>)
    ensures BitsValue(bits) < Pow2(|bits|)
  {
    if bits != [] {
      BitsValueBound(bits[1..]);
    }
  }

  /** The bytes that hold the bits, the last byte filled up with zeros. */
  ghost function Pack(bits: seq<bool>): seq<byte> {
    if bits == [] then []
    else
      var first := if |bits| < 8 then bits else bits[..8];
      BitsValueBound(first);
      ShlMonotonic(1, |first|, 8);
      assert Pow2(8) == 256;
      [BitsValue(first)] + Pack(bits[|first|..])
  }

  /** The whole stream, as bits from position 0 and as bytes. */
  ghost predicate ValidStream(s: Stream) {
    ValidBlocks(s, 0, [])
  }

  ghost function Encode(s: Stream): seq<byte>
    requires ValidStream(s)
  {
    Pack(BlocksBits(s, 0, []))
  }

  ghost function Plain(s: Stream): seq<byte>
    requires ValidStream(s)
  {
    ExpandBlocks(s, 0, [])
  }
}
