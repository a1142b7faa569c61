/** The format's writer is free enough: every text, every code, every run and every copy can be written (deflate.js). */
module Encodings {
  import opened Octets
  import opened Powers
  import opened Huffman
  import opened Inflate
  import opened FixedCodes
  import opened Deflate
  import opened Decompress

  // ----- Codes that can be used -----

  lemma FixedIsUsable(s: nat)
    requires s < 288
    ensures Usable(FixedLengths(), s)
  {
    hide Code;
    FixedCode(s);
    PowersOfTwo();
  }

  /** With lengths that are all the same, each symbol is its own code. */
  lemma FlatIsUsable(v: nat, n: nat, s: nat)
    requires 0 < v && s < n <= Pow2(v)
    ensures Usable(Repeat(v, n), s)
  {
    forall k: nat | 0 < k < v
      ensures Count(Repeat(v, n), k) == 0
    {
      CountRepeat(v, n, k);
    }
    FirstCodeZero(Repeat(v, n), v);
    assert Repeat(v, n)[..s] == Repeat(v, s);
    CountRepeat(v, s, v);
  }

  /** Every run of code lengths can be written when the 19 code-length codes have five bits each. */
  lemma EveryRunIsWritable(run: Run, lens: seq<nat>)
    requires match run
      case Length(length) => length <= 15
      case Previous(extra) => extra < 4 && lens != []
      case Zeros(extra) => extra < 8
      case ManyZeros(extra) => extra < 128
    ensures ValidRun(Repeat(5, 19), run, lens)
  {
    hide Usable;
    PowersOfTwo();
    FlatIsUsable(5, 19, RunCode(run));
  }

  // ----- Every pair of length vectors -----

  function LengthRuns(values: seq<nat>): seq<Run> {
    if values == [] then [] else [Length(values[0])] + LengthRuns(values[1..])
  }

  lemma LengthIsWritable(length: nat, lens: seq<nat>)
    requires length <= 15
    ensures ValidRun(Repeat(5, 19), Length(length), lens)
    ensures AddRun(Repeat(5, 19), Length(length), lens) == lens + [length]
  {
    EveryRunIsWritable(Length(length), lens);
    hide ValidRun, Repeat;
  }

  lemma LengthRunsAre(values: seq<nat>)
    ensures values == [] ==> LengthRuns(values) == []
    ensures values != [] ==> LengthRuns(values) != [] && LengthRuns(values)[0] == Length(values[0])
                             && LengthRuns(values)[1..] == LengthRuns(values[1..])
  {
  }

  lemma NoRuns(clen: seq<nat>, lens: seq<nat>)
    ensures ValidRuns(clen, [], lens, |lens|) && AddRuns(clen, [], lens, |lens|) == lens
  {
  }

  lemma OneRunFirst(clen: seq<nat>, runs: seq<Run>, lens: seq<nat>, longer: seq<nat>, total: nat)
    requires runs != [] && ValidRun(clen, runs[0], lens) && AddRun(clen, runs[0], lens) == longer
    requires ValidRuns(clen, runs[1..], longer, total)
    ensures ValidRuns(clen, runs, lens, total)
    ensures AddRuns(clen, runs, lens, total) == AddRuns(clen, runs[1..], longer, total)
  {
    hide ValidRun, AddRun;
  }

  lemma {:induction false} LengthsAreWritable(values: seq<nat>, lens: seq<nat>)
    requires forall i :: 0 <= i < |values| ==> values[i] <= 15
    ensures ValidRuns(Repeat(5, 19), LengthRuns(values), lens, |lens| + |values|)
    ensures AddRuns(Repeat(5, 19), LengthRuns(values), lens, |lens| + |values|) == lens + values
    decreases |values|
  {
    hide *;
    LengthRunsAre(values);
    if values == [] {
      NoRuns(Repeat(5, 19), lens);
      assert lens + values == lens;
    } else {
      var clen, runs, longer := Repeat(5, 19), LengthRuns(values), lens + [values[0]];
      LengthIsWritable(values[0], lens);
      LengthsAreWritable(values[1..], longer);
      assert |longer| + |values[1..]| == |lens| + |values| && longer + values[1..] == lens + values;
      OneRunFirst(clen, runs, lens, longer, |lens| + |values|);
    }
  }

  function HeaderFor(lengths: seq<nat>, distances: seq<nat>): Header {
    Header(|lengths|, |distances|, 19, Repeat(5, 19), LengthRuns(lengths + distances))
  }

  /** Every two vectors of code lengths have a header. */
  lemma EveryVectorHasHeader(lengths: seq<nat>, distances: seq<nat>)
    requires 257 <= |lengths| <= 288 && 1 <= |distances| <= 32
    requires forall i :: 0 <= i < |lengths| ==> lengths[i] <= 15
    requires forall i :: 0 <= i < |distances| ==> distances[i] <= 15
    ensures ValidHeader(HeaderFor(lengths, distances))
    ensures HeaderTrees(HeaderFor(lengths, distances)) == Trees(lengths, distances)
  {
    hide ValidRuns, AddRuns, LengthRuns;
    LengthsAreWritable(lengths + distances, []);
    PowersOfTwo();
    assert [] + (lengths + distances) == lengths + distances;
  }

  // ----- Every text -----

  function Literals(plain: seq<byte>): seq<Token> {
    if plain == [] then [] else [Literal(plain[0])] + Literals(plain[1..])
  }

  ghost predicate AllUsable(lens: seq<nat>) {
    forall s :: 0 <= s <= 256 ==> Usable(lens, s)
  }

  lemma {:induction false} LiteralsAreValid(trees: Trees, plain: seq<byte>, output: seq<byte>)
    requires AllUsable(trees.lengths)
    ensures ValidTokens(trees, Literals(plain), output)
    ensures ExpandTokens(trees, Literals(plain), output) == output + plain
    decreases |plain|
  {
    if plain == [] {
      assert output + plain == output;
    } else {
      hide Usable;
      LiteralsAreValid(trees, plain[1..], output + [plain[0]]);
      assert (output + [plain[0]]) + plain[1..] == output + plain;
      assert Literals(plain)[1..] == Literals(plain[1..]);
    }
  }

  /** Every text is the plain text of a stream, with fixed codes and with dynamic ones. */
  lemma EveryTextHasStream(plain: seq<byte>)
    ensures exists s: Stream :: s.Final? && s.block.Fixed? && ValidStream(s) && Plain(s) == plain
    ensures exists s: Stream :: s.Final? && s.block.Dynamic? && ValidStream(s) && Plain(s) == plain
  {
    hide *;
    FixedStream(plain);
    DynamicStream(plain);
    assert Final(Fixed(Literals(plain))).Final? && Final(Fixed(Literals(plain))).block.Fixed?;
    assert Final(Dynamic(HeaderFor(Repeat(9, 257), [1]), Literals(plain))).block.Dynamic?;
  }

  lemma FixedStream(plain: seq<byte>)
    ensures var s := Final(Fixed(Literals(plain))); ValidStream(s) && Plain(s) == plain
  {
    FixedIsUsableUpTo256();
    hide Literals, FixedLengths, FixedDistances, AllUsable, ValidTokens, ExpandTokens;
    LiteralsAreValid(Trees(FixedLengths(), FixedDistances()), plain, []);
    assert [] + plain == plain;
  }

  lemma DynamicStream(plain: seq<byte>)
    ensures var s := Final(Dynamic(HeaderFor(Repeat(9, 257), [1]), Literals(plain)));
            ValidStream(s) && Plain(s) == plain
  {
    DynamicIsUsable();
    EveryVectorHasHeader(Repeat(9, 257), [1]);
    hide Literals, HeaderFor, ValidHeader, HeaderTrees, AllUsable, ValidTokens, ExpandTokens, Repeat;
    LiteralsAreValid(Trees(Repeat(9, 257), [1]), plain, []);
    assert [] + plain == plain;
  }

  lemma FixedIsUsableUpTo256()
    ensures AllUsable(FixedLengths())
  {
    forall s | 0 <= s <= 256
      ensures Usable(FixedLengths(), s)
    {
      FixedIsUsable(s);
    }
  }

  lemma DynamicIsUsable()
    ensures AllUsable(Repeat(9, 257))
  {
    PowersOfTwo();
    forall s | 0 <= s <= 256
      ensures Usable(Repeat(9, 257), s)
    {
      FlatIsUsable(9, 257, s);
    }
  }

  // ----- Every copy -----

  lemma CopyIsValid(trees: Trees, token: Token, output: seq<byte>)
    requires token.Match? && token.lengthCode < |LENGTH_START| && token.distanceCode < |DISTANCE_START|
    requires token.lengthExtra < Pow2(LENGTH_ADDITIONAL_BITS[token.lengthCode])
    requires token.distanceExtra < Pow2(DISTANCE_ADDITIONAL_BITS[token.distanceCode])
    requires Usable(trees.lengths, 257 + token.lengthCode) && Usable(trees.distances, token.distanceCode)
    requires DISTANCE_START[token.distanceCode] + token.distanceExtra <= |output|
    ensures ValidToken(trees, token, |output|) && 1 <= DISTANCE_START[token.distanceCode]
    ensures Expand(trees, token, output) ==
      Overlap(output, DISTANCE_START[token.distanceCode] + token.distanceExtra,
        LENGTH_START[token.lengthCode] + token.lengthExtra)
  {
    hide Usable, Overlap, Shl;
    DistancePositive(token.distanceCode);
  }

  lemma FixedDistanceIsUsable(s: nat)
    requires s < 32
    ensures Usable(FixedDistances(), s)
  {
    PowersOfTwo();
    FlatIsUsable(5, 32, s);
  }

  /** With fixed codes, every copy of 3 to 258 bytes from within the window and the output can be written. */
  lemma EveryCopyIsWritable(length: nat, distance: nat, output: seq<byte>) returns (token: Token)
    requires 3 <= length <= 258 && 1 <= distance <= 32768 && distance <= |output|
    ensures var trees := Trees(FixedLengths(), FixedDistances());
      ValidToken(trees, token, |output|) && Expand(trees, token, output) == Overlap(output, distance, length)
  {
    hide *;
    token := EveryCopyHasToken(length, distance);
    TableSizes();
    FixedIsUsable(257 + token.lengthCode);
    FixedDistanceIsUsable(token.distanceCode);
    CopyIsValid(Trees(FixedLengths(), FixedDistances()), token, output);
  }
}
