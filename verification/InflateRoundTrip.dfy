/** The round trip: the decoder of deflate.js recovers what any well-formed DEFLATE stream stands for. */
module InflateRoundTrip {
  import opened Octets
  import opened Powers
  import opened Results
  import opened BitStreams
  import opened Huffman
  import opened HuffmanTrees
  import opened Inflate
  import opened Deflate

  // ----- Bits and numbers -----

  lemma HasBitsSplit(data: seq<byte>, pos: nat, a: seq<bool>, b: seq<bool>)
    requires HasBits(data, pos, a + b)
    ensures HasBits(data, pos, a) && HasBits(data, pos + |a|, b)
  {
    forall i | 0 <= i < |a|
      ensures Bit(data, pos + i) == a[i]
    {
      assert (a + b)[i] == a[i];
    }
    forall i | 0 <= i < |b|
      ensures Bit(data, pos + |a| + i) == b[i]
    {
      assert (a + b)[|a| + i] == b[i];
      assert pos + (|a| + i) == pos + |a| + i;
    }
  }

  /** The first bit read is the lowest digit. */
  lemma {:induction false} LsbFront(data: seq<byte>, pos: nat, n: nat)
    requires n > 0 && pos + n <= 8 * |data|
    ensures LsbValue(data, pos, n)
         == (if Bit(data, pos) then 1 else 0) + 2 * LsbValue(data, pos + 1, n - 1)
    decreases n
  {
    if n > 1 {
      LsbFront(data, pos, n - 1);
      assert pos + 1 + (n - 1) - 1 == pos + n - 1;
    }
  }

  lemma {:induction false} ReadsBack(data: seq<byte>, pos: nat, v: nat, n: nat)
    requires HasBits(data, pos, LsbBits(v, n)) && v < Pow2(n)
    ensures LsbValue(data, pos, n) == v
    decreases n
  {
    if n > 0 {
      LsbFront(data, pos, n);
      HasBitsSplit(data, pos, [v % 2 == 1], LsbBits(v / 2, n - 1));
      ReadsBack(data, pos + 1, v / 2, n - 1);
      assert Bit(data, pos + 0) == [v % 2 == 1][0];
    }
  }

  lemma PeekReadsBack(data: seq<byte>, pos: nat, v: nat, n: nat)
    requires HasBits(data, pos, LsbBits(v, n)) && v < Pow2(n)
    ensures PeekLsb(data, pos, n) == Ok(v)
  {
    ReadsBack(data, pos, v, n);
  }

  lemma {:induction false} DescendsInData(t: Tree, data: seq<byte>, pos: nat, bits: seq<bool>, s: nat)
    requires HasBits(data, pos, bits) && Descend(t, bits) == Leaf(s)
    ensures ReadSymbol(t, data, pos) == Ok((s, pos + |bits|))
    decreases |bits|
  {
    if bits != [] {
      assert [bits[0]] + bits[1..] == bits;
      HasBitsSplit(data, pos, [bits[0]], bits[1..]);
      assert Bit(data, pos + 0) == bits[0] && pos < 8 * |data|;
      hide HasBits, Bit;
      DescendsInData(if bits[0] then t.one else t.zero, data, pos + 1, bits[1..], s);
    }
  }

  /** Reading a symbol's code yields the symbol. */
  lemma SymbolReadsBack(lens: seq<nat>, s: nat, data: seq<byte>, pos: nat)
    requires Usable(lens, s) && HasBits(data, pos, SymbolBits(lens, s))
    ensures ReadSymbol(CodeTree(lens), data, pos) == Ok((s, pos + |SymbolBits(lens, s)|))
  {
    hide CodeTree, Code, Fits, CodeBits, ReadSymbol;
    CodeReachesSymbol(lens, s);
    DescendsInData(CodeTree(lens), data, pos, SymbolBits(lens, s), s);
  }

  lemma ExtendedReadsBack(data: seq<byte>, pos: nat, start: nat, extra: nat, bits: nat)
    requires HasBits(data, pos, LsbBits(extra, bits)) && extra < Pow2(bits)
    ensures ReadExtended(data, pos, start, bits) == Ok((start + extra, pos + bits))
  {
    ReadsBack(data, pos, extra, bits);
  }

  // ----- Items -----

  function TokenItem(token: Token): Item
    requires token.Match? ==> token.lengthCode < |LENGTH_START| && token.distanceCode < |DISTANCE_START|
  {
    match token
    case Literal(value) => Symbol(value)
    case Match(lc, le, dc, de) => Copy(Some(DISTANCE_START[dc] + de), LENGTH_START[lc] + le)
  }

  lemma DistanceReadsBack(distances: seq<nat>, dc: nat, de: nat, data: seq<byte>, pos: nat)
    requires dc < |DISTANCE_START| && de < Pow2(DISTANCE_ADDITIONAL_BITS[dc]) && Usable(distances, dc)
    requires HasBits(data, pos, SymbolBits(distances, dc) + LsbBits(de, DISTANCE_ADDITIONAL_BITS[dc]))
    ensures ReadDistance(distances, data, pos)
         == Ok((Some(DISTANCE_START[dc] + de), pos + |SymbolBits(distances, dc)| + DISTANCE_ADDITIONAL_BITS[dc]))
  {
    hide Usable, SymbolBits, ReadSymbol, CodeTree, ReadExtended, LsbBits, HasBits;
    hide DISTANCE_START, DISTANCE_ADDITIONAL_BITS;
    TableSizes();
    var bits := SymbolBits(distances, dc);
    HasBitsSplit(data, pos, bits, LsbBits(de, DISTANCE_ADDITIONAL_BITS[dc]));
    SymbolReadsBack(distances, dc, data, pos);
    ExtendedReadsBack(data, pos + |bits|, DISTANCE_START[dc], de, DISTANCE_ADDITIONAL_BITS[dc]);
  }

  lemma TokenReadsBack(trees: Trees, token: Token, produced: nat, data: seq<byte>, pos: nat)
    requires ValidToken(trees, token, produced)
    requires HasBits(data, pos, TokenBits(trees, token, produced))
    ensures ReadItem(trees, data, pos) == Ok((TokenItem(token), pos + |TokenBits(trees, token, produced)|))
  {
    hide Usable, SymbolBits, ReadItem, HasBits, LsbBits, LENGTH_START, LENGTH_ADDITIONAL_BITS, DISTANCE_START;
    hide DISTANCE_ADDITIONAL_BITS;
    if token.Literal? {
      LiteralReadsBack(trees, token.value, data, pos);
    } else {
      MatchReadsBack(trees, token, produced, data, pos);
    }
  }

  lemma LiteralReadsBack(trees: Trees, value: byte, data: seq<byte>, pos: nat)
    requires Usable(trees.lengths, value) && HasBits(data, pos, SymbolBits(trees.lengths, value))
    ensures ReadItem(trees, data, pos) == Ok((Symbol(value), pos + |SymbolBits(trees.lengths, value)|))
  {
    hide Usable, SymbolBits, ReadSymbol, CodeTree, HasBits;
    SymbolReadsBack(trees.lengths, value, data, pos);
  }

  lemma MatchReadsBack(trees: Trees, token: Token, produced: nat, data: seq<byte>, pos: nat)
    requires token.Match? && ValidToken(trees, token, produced)
    requires HasBits(data, pos, TokenBits(trees, token, produced))
    ensures ReadItem(trees, data, pos) == Ok((TokenItem(token), pos + |TokenBits(trees, token, produced)|))
  {
    hide Usable, SymbolBits, ReadSymbol, CodeTree, ReadExtended, ReadDistance, LsbBits, HasBits;
    hide LENGTH_START, LENGTH_ADDITIONAL_BITS, DISTANCE_START, DISTANCE_ADDITIONAL_BITS;
    TableSizes();
    var Match(lc, le, dc, de) := token;
    var n := LENGTH_ADDITIONAL_BITS[lc];
    var a, b := SymbolBits(trees.lengths, 257 + lc), LsbBits(le, n);
    var c := SymbolBits(trees.distances, dc) + LsbBits(de, DISTANCE_ADDITIONAL_BITS[dc]);
    HasBitsSplit(data, pos, a, b + c);
    HasBitsSplit(data, pos + |a|, b, c);
    SymbolReadsBack(trees.lengths, 257 + lc, data, pos);
    ExtendedReadsBack(data, pos + |a|, LENGTH_START[lc], le, n);
    DistanceReadsBack(trees.distances, dc, de, data, pos + |a| + n);
  }

  // ----- Copies -----

  /** Pushing one cell after another repeats the copied string, as the format asks for. */
  lemma {:induction false} CopyOverlaps(output: seq<byte>, distance: nat, n: nat)
    requires 1 <= distance <= |output|
    ensures CopyFrom(Bytes(output), |output| - distance, n) == Bytes(Overlap(output, distance, n))
    decreases n
  {
    if n == 0 {
      assert Overlap(output, distance, 0) == output;
    } else {
      var next := output[|output| - distance];
      OneMoreByte(output, next);
      OverlapStep(output, distance, n);
      hide Bytes, Overlap;
      assert At(Bytes(output), |output| - distance) == Byte(next);
      CopyOverlaps(output + [next], distance, n - 1);
    }
  }

  lemma OneMoreByte(output: seq<byte>, next: byte)
    ensures Bytes(output) + [Byte(next)] == Bytes(output + [next])
  {
    hide Bytes;
    var a, b := Bytes(output) + [Byte(next)], Bytes(output + [next]);
    assert forall i :: 0 <= i < |output| ==> a[i] == Byte(output[i]) == b[i];
    assert a == b;
  }

  lemma OverlapStep(output: seq<byte>, distance: nat, n: nat)
    requires 1 <= distance <= |output| && n > 0
    ensures Overlap(output, distance, n) == Overlap(output + [output[|output| - distance]], distance, n - 1)
  {
    var next := output[|output| - distance];
    var a, b := Overlap(output, distance, n), Overlap(output + [next], distance, n - 1);
    forall k | 0 <= k < |a|
      ensures a[k] == b[k]
    {
      if k > |output| {
        var i := k - |output| - 1;
        ModStep(i, distance);
      }
    }
  }

  lemma ModStep(i: nat, d: nat)
    requires d > 0
    ensures (i + 1) % d == if i % d == d - 1 then 0 else i % d + 1
  {
    var q, r := i / d, i % d;
    assert i == q * d + r;
    if r == d - 1 {
      assert i + 1 == (q + 1) * d;
      DivModUnique(i + 1, d, q + 1, 0);
    } else {
      DivModUnique(i + 1, d, q, r + 1);
    }
  }

  lemma TokenExpands(trees: Trees, token: Token, output: seq<byte>)
    requires ValidToken(trees, token, |output|)
    ensures Apply(Bytes(output), TokenItem(token)) == Bytes(Expand(trees, token, output))
  {
    hide Usable, CopyFrom, Overlap, LENGTH_START, LENGTH_ADDITIONAL_BITS, DISTANCE_START, DISTANCE_ADDITIONAL_BITS;
    match token
    case Literal(value) =>
      assert Bytes(output) + [Byte(value)] == Bytes(output + [value]);
    case Match(lc, le, dc, de) =>
      DistancePositive(dc);
      CopyOverlaps(output, DISTANCE_START[dc] + de, LENGTH_START[lc] + le);
  }

  // ----- Compressed blocks -----

  /** The decoder after a block: its trees no longer matter. */
  ghost predicate AtBoundary(d: Decoder, pos: nat, final: bool) {
    d.pos == pos && d.state == (if final then 2 else 0) && (final ==> d.blockFinal)
  }

  /** Decoding the token at hand, and what is left to decode after it. */
  lemma TokenDecodes(trees: Trees, tokens: seq<Token>, output: seq<byte>, data: seq<byte>, pos: nat, final: bool,
      next: nat)
    requires WellSized(trees) && tokens != [] && ValidTokens(trees, tokens, output)
    requires HasBits(data, pos, TokensBits(trees, tokens, output))
             && next == pos + |TokenBits(trees, tokens[0], |output|)|
    ensures var rest := Expand(trees, tokens[0], output);
            && HasBits(data, next, TokensBits(trees, tokens[1..], rest))
            && pos + |TokensBits(trees, tokens, output)| == next + |TokensBits(trees, tokens[1..], rest)|
            && ValidDecoder(data, Decoder(pos, 1, final, trees)) && ValidDecoder(data, Decoder(next, 1, final, trees))
            && Output(data, Decoder(pos, 1, final, trees), Bytes(output)) ==
              Output(data, Decoder(next, 1, final, trees), Bytes(rest))
  {
    hide Usable, SymbolBits, ReadItem, TokenBits, Expand, Apply, WellSized, ExpandTokens;
    var start, rest := Decoder(pos, 1, final, trees), Expand(trees, tokens[0], output);
    HasBitsSplit(data, pos, TokenBits(trees, tokens[0], |output|), TokensBits(trees, tokens[1..], rest));
    TokenReadsBack(trees, tokens[0], |output|, data, pos);
    assert DecodeItem(data, start) == Ok((Some(TokenItem(tokens[0])), start.(pos := next)));
    TokenExpands(trees, tokens[0], output);
  }

  /** Decoding the end of the block. */
  lemma EndDecodes(trees: Trees, output: seq<byte>, data: seq<byte>, pos: nat, final: bool) returns (d: Decoder)
    requires WellSized(trees) && Usable(trees.lengths, 256) && HasBits(data, pos, SymbolBits(trees.lengths, 256))
    ensures ValidDecoder(data, d) && AtBoundary(d, pos + |SymbolBits(trees.lengths, 256)|, final)
    ensures ValidDecoder(data, Decoder(pos, 1, final, trees))
    ensures Output(data, Decoder(pos, 1, final, trees), Bytes(output)) == Output(data, d, Bytes(output))
  {
    hide Usable, SymbolBits, ReadItem, Apply, WellSized;
    var start := Decoder(pos, 1, final, trees);
    EndReadsBack(trees, data, pos);
    d := AfterItem(start, EndOfBlock, pos + |SymbolBits(trees.lengths, 256)|);
    assert DecodeItem(data, start) == Ok((Some(EndOfBlock), d));
    EndAppendsNothing(Bytes(output));
  }

  lemma {:induction false} TokensDecode(trees: Trees, tokens: seq<Token>, output: seq<byte>,
                                       data: seq<byte>, pos: nat, final: bool) returns (d: Decoder)
    requires WellSized(trees) && ValidTokens(trees, tokens, output)
    requires HasBits(data, pos, TokensBits(trees, tokens, output))
    ensures ValidDecoder(data, d) && AtBoundary(d, pos + |TokensBits(trees, tokens, output)|, final)
    ensures ValidDecoder(data, Decoder(pos, 1, final, trees))
    ensures Output(data, Decoder(pos, 1, final, trees), Bytes(output))
         == Output(data, d, Bytes(ExpandTokens(trees, tokens, output)))
    decreases |tokens|
  {
    hide Usable, SymbolBits, TokenBits, Expand, WellSized, Output, DecodeItem, Bytes, HasBits;
    if tokens == [] {
      d := EndDecodes(trees, output, data, pos, final);
    } else {
      hide TokensBits;
      var rest, next := Expand(trees, tokens[0], output), pos + |TokenBits(trees, tokens[0], |output|)|;
      TokenDecodes(trees, tokens, output, data, pos, final, next);
      d := TokensDecode(trees, tokens[1..], rest, data, next, final);
    }
  }

  lemma EndReadsBack(trees: Trees, data: seq<byte>, pos: nat)
    requires Usable(trees.lengths, 256) && HasBits(data, pos, SymbolBits(trees.lengths, 256))
    ensures ReadItem(trees, data, pos) == Ok((EndOfBlock, pos + |SymbolBits(trees.lengths, 256)|))
  {
    hide Usable, SymbolBits, ReadSymbol, CodeTree;
    SymbolReadsBack(trees.lengths, 256, data, pos);
  }

  lemma EndAppendsNothing(history: seq<Cell>)
    ensures Apply(history, EndOfBlock) == history
  {
  }
}
