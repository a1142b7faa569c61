/** Canonical Huffman codes and decoding trees: the model of buildCodes, buildTree and
    buildTreeBranch in deflate.js.

    A code is described by one length per symbol, zero for an unused symbol. Nothing here assumes
    that the lengths are consistent (Kraft sum at most one): the theorems say exactly what the code
    does with every vector of lengths, and where consistency starts to matter. */
module Huffman {
  import opened Powers

  /** The longest code that a DEFLATE stream can declare (RFC 1951, section 3.2.7). */
  const MAX_CODE_LENGTH: nat := 15

  /** How many symbols have code length b. */
  function Count(lens: seq<nat>, b: nat): nat {
    if lens == [] then 0
    else Count(lens[..|lens| - 1], b) + if lens[|lens| - 1] == b then 1 else 0
  }

  function Used(lens: seq<nat>, b: nat): nat {
    if b == 0 then 0 else Count(lens, b)
  }

  /** The smallest code of length b (the recurrence of RFC 1951, section 3.2.2, step 2). */
  function FirstCode(lens: seq<nat>, b: nat): nat
    decreases b, 0
  {
    if b == 0 then 0 else 2 * EndCode(lens, b - 1)
  }

  /** One more than the largest code of length b. */
  function EndCode(lens: seq<nat>, b: nat): nat
    decreases b, 1
  {
    FirstCode(lens, b) + Used(lens, b)
  }

  /** The code of symbol s: codes of one length are consecutive, in symbol order. */
  function Code(lens: seq<nat>, s: nat): nat
    requires s < |lens|
  {
    FirstCode(lens, lens[s]) + Count(lens[..s], lens[s])
  }

  function MaxLength(lens: seq<nat>): (m: nat)
    ensures forall s :: 0 <= s < |lens| ==> lens[s] <= m
  {
    if lens == [] then 0
    else
      var m := MaxLength(lens[..|lens| - 1]);
      var last := lens[|lens| - 1];
      if m < last then last else m
  }

  lemma {:induction false} MaxLengthAttained(lens: seq<nat>) returns (s: nat)
    requires MaxLength(lens) > 0
    ensures s < |lens| && lens[s] == MaxLength(lens)
  {
    s := |lens| - 1;
    if lens[s] != MaxLength(lens) {
      s := MaxLengthAttained(lens[..s]);
    }
  }

  lemma CountStep(lens: seq<nat>, s: nat, b: nat)
    requires s < |lens|
    ensures Count(lens[..s + 1], b) == Count(lens[..s], b) + if lens[s] == b then 1 else 0
  {
    assert lens[..s + 1][..s] == lens[..s];
  }

  lemma {:induction false} CountMonotonic(lens: seq<nat>, s: nat, t: nat, b: nat)
    requires s <= t <= |lens|
    ensures Count(lens[..s], b) <= Count(lens[..t], b)
    decreases t
  {
    if s < t {
      CountMonotonic(lens, s, t - 1, b);
      CountStep(lens, t - 1, b);
    }
  }

  /** A used symbol's code lies among the codes of its length. */
  lemma CodeInRange(lens: seq<nat>, s: nat)
    requires s < |lens| && lens[s] > 0
    ensures FirstCode(lens, lens[s]) <= Code(lens, s) < EndCode(lens, lens[s])
  {
    CountStep(lens, s, lens[s]);
    CountMonotonic(lens, s + 1, |lens|, lens[s]);
    assert lens[..|lens|] == lens;
  }

  /** buildCodes (deflate.js): counting sort of the lengths, then consecutive numbering. */
  method BuildCodes(lengths: seq<nat>) returns (codes: seq<nat>)
    requires |lengths| > 0
    ensures |codes| == |lengths|
    ensures forall s :: 0 <= s < |lengths| && lengths[s] != 0 ==> codes[s] == Code(lengths, s)
  {
    hide Count, FirstCode, EndCode, Code;
    var maxBits := lengths[0];
    for i := 1 to |lengths|
      invariant maxBits in lengths
      invariant forall s :: 0 <= s < i ==> lengths[s] <= maxBits
    {
      if maxBits < lengths[i] {
        maxBits := lengths[i];
      }
    }

    var bitLengthsCount := new nat[maxBits + 1];
    for i := 0 to maxBits + 1
      invariant forall b :: 0 <= b < i ==> bitLengthsCount[b] == 0
    {
      bitLengthsCount[i] := 0;
    }
    CountOfEmpty(lengths);
    for i := 0 to |lengths|
      invariant forall b :: 0 <= b <= maxBits ==> bitLengthsCount[b] == Count(lengths[..i], b)
    {
      CountSteps(lengths, i);
      bitLengthsCount[lengths[i]] := bitLengthsCount[lengths[i]] + 1;
    }
    assert lengths[..|lengths|] == lengths;

    var nextCode := new nat[maxBits + 1];
    var code := 0;
    bitLengthsCount[0] := 0;
    FirstCodeSteps(lengths);
    for bits := 1 to maxBits + 1
      invariant forall b :: 0 <= b <= maxBits ==> bitLengthsCount[b] == Used(lengths, b)
      invariant code == FirstCode(lengths, bits - 1)
      invariant forall b :: 0 < b < bits ==> nextCode[b] == FirstCode(lengths, b)
    {
      code := (code + bitLengthsCount[bits - 1]) * 2;
      nextCode[bits] := code;
    }

    var result := new nat[|lengths|];
    for n := 0 to |lengths|
      invariant forall b :: 0 < b <= maxBits ==> nextCode[b] == NextCode(lengths, n, b)
      invariant forall s :: 0 <= s < n && lengths[s] != 0 ==> result[s] == Code(lengths, s)
    {
      NextCodeSteps(lengths, n);
      var len := lengths[n];
      if len != 0 {
        result[n] := nextCode[len];
        nextCode[len] := nextCode[len] + 1;
      }
    }
    codes := result[..];
  }

  function NextCode(lens: seq<nat>, n: nat, b: nat): nat
    requires n <= |lens|
  {
    FirstCode(lens, b) + Count(lens[..n], b)
  }

  lemma NextCodeSteps(lens: seq<nat>, n: nat)
    requires n < |lens|
    ensures forall b :: b > 0 ==> NextCode(lens, n + 1, b) == NextCode(lens, n, b) + if lens[n] == b then 1 else 0
    ensures lens[n] > 0 ==> Code(lens, n) == NextCode(lens, n, lens[n])
  {
    CountSteps(lens, n);
  }

  lemma CountOfEmpty(lens: seq<nat>)
    ensures forall b: nat {:trigger Count(lens[..0], b)} :: Count(lens[..0], b) == 0
  {
  }

  lemma FirstCodeSteps(lens: seq<nat>)
    ensures FirstCode(lens, 0) == 0
    ensures forall b: nat {:trigger Used(lens, b)} ::
      FirstCode(lens, b + 1) == 2 * (FirstCode(lens, b) + Used(lens, b))
  {
  }

  lemma CountSteps(lens: seq<nat>, s: nat)
    requires s < |lens|
    ensures forall b: nat {:trigger Count(lens[..s + 1], b)} ::
      Count(lens[..s + 1], b) == Count(lens[..s], b) + if lens[s] == b then 1 else 0
  {
    forall b: nat
      ensures Count(lens[..s + 1], b) == Count(lens[..s], b) + if lens[s] == b then 1 else 0
    {
      CountStep(lens, s, b);
    }
  }

  // ----- The shape of a canonical code -----

  /** Codes of length n stay below those of any greater length m, once padded to m bits. */
  lemma {:induction false} EndCodeScales(lens: seq<nat>, n: nat, m: nat)
    requires n <= m
    ensures Shl(EndCode(lens, n), m - n) <= EndCode(lens, m)
    decreases m
  {
    if n < m {
      EndCodeScales(lens, n, m - 1);
    }
  }

  /** RFC 1951, section 3.2.2: codes of one length follow symbol order, and shorter codes precede
      longer ones lexicographically. */
  lemma CanonicalOrder(lens: seq<nat>, s: nat, t: nat)
    requires s < |lens| && t < |lens| && 0 < lens[s] <= lens[t]
    ensures lens[s] == lens[t] && s < t ==> Code(lens, s) < Code(lens, t)
    ensures lens[s] < lens[t] ==> Shl(Code(lens, s) + 1, lens[t] - lens[s]) <= Code(lens, t)
  {
    if lens[s] < lens[t] {
      var k := lens[t] - 1 - lens[s];
      CodeInRange(lens, s);
      CodeInRange(lens, t);
      EndCodeScales(lens, lens[s], lens[t] - 1);
      ShlOrder(Code(lens, s) + 1, EndCode(lens, lens[s]), k);
    } else if s < t {
      CountStep(lens, s, lens[s]);
      CountMonotonic(lens, s + 1, t, lens[s]);
    }
  }

  /** No code is the beginning of another symbol's code, whatever the lengths. */
  lemma PrefixFree(lens: seq<nat>, s: nat, t: nat)
    requires s < |lens| && t < |lens| && s != t && 0 < lens[s] <= lens[t]
    ensures Shr(Code(lens, t), lens[t] - lens[s]) != Code(lens, s)
  {
    CanonicalOrder(lens, s, t);
    if lens[s] == lens[t] {
      CanonicalOrder(lens, t, s);
    } else {
      ShrAdjoint(Code(lens, t), Code(lens, s) + 1, lens[t] - lens[s]);
    }
  }

  /** The Kraft sum of the first n symbols, in units of 2^-m. */
  function Kraft(lens: seq<nat>, n: nat, m: nat): nat
    requires n <= |lens|
    requires forall s :: 0 <= s < |lens| ==> lens[s] <= m
  {
    if n == 0 then 0
    else Kraft(lens, n - 1, m) + if lens[n - 1] == 0 then 0 else Pow2(m - lens[n - 1])
  }

  function KraftSum(lens: seq<nat>): nat {
    Kraft(lens, |lens|, MaxLength(lens))
  }

  /** One more symbol adds its weight to the code space taken up by codes of at most b bits. */
  lemma {:induction false} EndCodeOfPrefix(lens: seq<nat>, n: nat, b: nat)
    requires n < |lens|
    ensures EndCode(lens[..n + 1], b)
         == EndCode(lens[..n], b) + if 0 < lens[n] <= b then Pow2(b - lens[n]) else 0
    decreases b
  {
    CountStep(lens, n, b);
    if b > 0 {
      EndCodeOfPrefix(lens, n, b - 1);
    }
  }

  lemma {:induction false} KraftOfPrefix(lens: seq<nat>, n: nat, m: nat)
    requires n <= |lens| && (forall s :: 0 <= s < |lens| ==> lens[s] <= m)
    ensures EndCode(lens[..n], m) == Kraft(lens, n, m)
    decreases n
  {
    if n == 0 {
      EndCodeOfEmpty(m);
      assert lens[..0] == [];
    } else {
      KraftOfPrefix(lens, n - 1, m);
      EndCodeOfPrefix(lens, n - 1, m);
    }
  }

  lemma {:induction false} EndCodeOfEmpty(b: nat)
    ensures EndCode([], b) == 0
  {
    if b > 0 {
      EndCodeOfEmpty(b - 1);
    }
  }

  /** The codes in use take up exactly the Kraft sum of the code space. */
  lemma KraftIsEndCode(lens: seq<nat>)
    ensures EndCode(lens, MaxLength(lens)) == KraftSum(lens)
  {
    KraftOfPrefix(lens, |lens|, MaxLength(lens));
    assert lens[..|lens|] == lens;
  }

  ghost predicate Fits(lens: seq<nat>, s: nat)
    requires s < |lens|
  {
    Code(lens, s) < Pow2(lens[s])
  }

  lemma FitsWhenEndCodeFits(lens: seq<nat>, s: nat)
    requires s < |lens| && lens[s] > 0
    requires EndCode(lens, MaxLength(lens)) <= Pow2(MaxLength(lens))
    ensures Fits(lens, s)
  {
    var m, n := MaxLength(lens), lens[s];
    CodeInRange(lens, s);
    EndCodeScales(lens, n, m);
    ShlShl(1, n, m - n);
    ShlOrder(EndCode(lens, n), Pow2(n), m - n);
  }

  /** Every used symbol's code fits in its length exactly when the Kraft sum is at most one. */
  lemma CodesFitIffKraft(lens: seq<nat>)
    ensures (forall s :: 0 <= s < |lens| && lens[s] > 0 ==> Fits(lens, s))
       <==> KraftSum(lens) <= Pow2(MaxLength(lens))
  {
    var m := MaxLength(lens);
    KraftIsEndCode(lens);
    if EndCode(lens, m) <= Pow2(m) {
      forall s | 0 <= s < |lens| && lens[s] > 0
        ensures Fits(lens, s)
      {
        FitsWhenEndCodeFits(lens, s);
      }
    } else if m > 0 {
      var t := MaxLengthAttained(lens);
      SymbolAtUnique(lens, t);
      var s := SymbolAt(lens, m, Count(lens, m) - 1);
      assert !Fits(lens, s);
    }
  }

  /** The symbol of length b that is preceded by exactly `rank` others of its length. */
  function SymbolAt(lens: seq<nat>, b: nat, rank: nat): (s: nat)
    requires rank < Count(lens, b)
    ensures s < |lens| && lens[s] == b && Count(lens[..s], b) == rank
  {
    var last := |lens| - 1;
    if lens[last] == b && Count(lens[..last], b) == rank then last
    else
      var s := SymbolAt(lens[..last], b, rank);
      assert lens[..last][..s] == lens[..s];
      s
  }

  lemma SymbolAtUnique(lens: seq<nat>, s: nat)
    requires s < |lens|
    ensures Count(lens[..s], lens[s]) < Count(lens, lens[s])
    ensures SymbolAt(lens, lens[s], Count(lens[..s], lens[s])) == s
  {
    var b := lens[s];
    CountStep(lens, s, b);
    CountMonotonic(lens, s + 1, |lens|, b);
    assert lens[..|lens|] == lens;
    var t := SymbolAt(lens, b, Count(lens[..s], b));
    CountStep(lens, t, b);
    if s < t {
      CountMonotonic(lens, s + 1, t, b);
    } else if t < s {
      CountMonotonic(lens, t + 1, s, b);
    }
  }

  // ----- Decoding trees -----

  datatype Tree = Null | Leaf(index: nat) | Branch(zero: Tree, one: Tree)

  datatype Entry = Entry(bits: nat, length: nat, index: nat)

  /** The tree below the path of l bits whose value is p. The codes of length l end before
      EndCode(l), so a path below that bound is a code; a path above all codes leads nowhere. */
  function Node(lens: seq<nat>, p: nat, l: nat): Tree
    requires l <= MaxLength(lens) && FirstCode(lens, l) <= p
    decreases MaxLength(lens) - l
  {
    if p < EndCode(lens, l) then Leaf(SymbolAt(lens, l, p - FirstCode(lens, l)))
    else if Shl(p, MaxLength(lens) - l) >= EndCode(lens, MaxLength(lens)) then Null
    else
      assert l < MaxLength(lens);
      Branch(Node(lens, 2 * p, l + 1), Node(lens, 2 * p + 1, l + 1))
  }

  function CodeTree(lens: seq<nat>): Tree {
    Node(lens, 0, 0)
  }

  function EntryOf(lens: seq<nat>, s: nat): Entry
    requires s < |lens|
  {
    Entry(Code(lens, s), lens[s], s)
  }

  function Entries(lens: seq<nat>, n: nat): seq<Entry>
    requires n <= |lens|
  {
    if n == 0 then []
    else Entries(lens, n - 1) + if lens[n - 1] > 0 then [EntryOf(lens, n - 1)] else []
  }

  // ----- Codes as bit strings, most significant bit first -----

  function CodeBits(code: nat, length: nat): (bits: seq<bool>)
    ensures |bits| == length
  {
    if length == 0 then [] else CodeBits(code / 2, length - 1) + [code % 2 == 1]
  }

  function Value(path: seq<bool>): nat {
    if path == [] then 0
    else 2 * Value(path[..|path| - 1]) + if path[|path| - 1] then 1 else 0
  }

  lemma ValueStep(path: seq<bool>, b: bool)
    ensures Value(path + [b]) == 2 * Value(path) + if b then 1 else 0
  {
    assert (path + [b])[..|path|] == path;
  }

  lemma {:induction false} ValueBound(path: seq<bool>)
    ensures Value(path) < Pow2(|path|)
  {
    if path != [] {
      ValueBound(path[..|path| - 1]);
    }
  }

  /** A bit string determines its value, and a value its bit string of a given length. */
  lemma {:induction false} CodeBitsOfValue(path: seq<bool>)
    ensures CodeBits(Value(path), |path|) == path
  {
    if path != [] {
      CodeBitsOfValue(path[..|path| - 1]);
    }
  }

  /** A code too large for its length keeps its low bits, as the JavaScript shifts do. */
  lemma {:induction false} ValueOfCodeBits(code: nat, length: nat)
    ensures Value(CodeBits(code, length)) <= code
    ensures code < Pow2(length) ==> Value(CodeBits(code, length)) == code
    decreases length
  {
    if length > 0 {
      ValueOfCodeBits(code / 2, length - 1);
      ValueStep(CodeBits(code / 2, length - 1), code % 2 == 1);
    }
  }

  lemma {:induction false} CodeBitsAt(code: nat, length: nat, k: nat)
    requires k < length
    ensures CodeBits(code, length)[k] == (Shr(code, length - k - 1) % 2 == 1)
    decreases length
  {
    if k < length - 1 {
      CodeBitsAt(code / 2, length - 1, k);
    }
  }

  lemma {:induction false} CodeBitsPadded(code: nat, length: nat, j: nat)
    ensures CodeBits(code, length) <= CodeBits(Shl(code, j), length + j)
    decreases j
  {
    if j > 0 {
      CodeBitsPadded(code, length, j - 1);
    }
  }

  lemma {:induction false} PathBelowValue(path: seq<bool>, whole: seq<bool>)
    requires path <= whole
    ensures Shl(Value(path), |whole| - |path|) <= Value(whole)
    decreases |whole|
  {
    if path < whole {
      PathBelowValue(path, whole[..|whole| - 1]);
    } else {
      assert path == whole;
    }
  }

  // ----- The entries below a path -----

  predicate Passes(e: Entry, path: seq<bool>) {
    path <= CodeBits(e.bits, e.length)
  }

  function Select(es: seq<Entry>, path: seq<bool>): seq<Entry> {
    if es == [] then []
    else
      Select(es[..|es| - 1], path) + if Passes(es[|es| - 1], path) then [es[|es| - 1]] else []
  }

  lemma SelectStep(es: seq<Entry>, i: nat, path: seq<bool>)
    requires i < |es|
    ensures Select(es[..i + 1], path) == Select(es[..i], path) + if Passes(es[i], path) then [es[i]] else []
  {
    assert es[..i + 1][..i] == es[..i];
  }

  lemma {:induction false} SelectMember(es: seq<Entry>, path: seq<bool>, e: Entry)
    ensures e in Select(es, path) <==> e in es && Passes(e, path)
  {
    if es != [] {
      var last := |es| - 1;
      SelectMember(es[..last], path, e);
      assert es == es[..last] + [es[last]];
    }
  }

  lemma {:induction false} EntriesMember(lens: seq<nat>, n: nat, e: Entry)
    requires n <= |lens|
    ensures e in Entries(lens, n) <==> e.index < n && lens[e.index] > 0 && e == EntryOf(lens, e.index)
    decreases n
  {
    if n > 0 {
      EntriesMember(lens, n - 1, e);
    }
  }

  ghost predicate InRange(lens: seq<nat>, e: Entry) {
    && 0 < e.length <= MaxLength(lens)
    && FirstCode(lens, e.length) <= e.bits < EndCode(lens, e.length)
  }

  ghost predicate IsEntry(lens: seq<nat>, e: Entry) {
    && InRange(lens, e)
    && e.index < |lens| && lens[e.index] == e.length && Code(lens, e.index) == e.bits
  }

  lemma EntryInRange(lens: seq<nat>, e: Entry)
    requires e in Entries(lens, |lens|)
    ensures InRange(lens, e) && e.index < |lens| && lens[e.index] == e.length
  {
    EntriesMember(lens, |lens|, e);
    CodeInRange(lens, e.index);
  }

  /** One bit further down: which child an entry belongs to. */
  lemma PassesStep(e: Entry, path: seq<bool>, b: bool)
    requires |path| < e.length
    ensures Passes(e, path + [b])
       <==> Passes(e, path) && b == (Shr(e.bits, e.length - |path| - 1) % 2 == 1)
  {
    hide CodeBits, Shr;
    var bits := CodeBits(e.bits, e.length);
    CodeBitsAt(e.bits, e.length, |path|);
    PrefixStep(path, b, bits);
  }

  lemma PrefixStep(path: seq<bool>, b: bool, bits: seq<bool>)
    requires |path| < |bits|
    ensures path + [b] <= bits <==> path <= bits && b == bits[|path|]
  {
    if path + [b] <= bits {
      assert (path + [b])[|path|] == bits[|path|];
      assert path == (path + [b])[..|path|];
    }
  }

  lemma PassesPrefix(e: Entry, path: seq<bool>, b: bool)
    requires Passes(e, path + [b])
    ensures Passes(e, path)
  {
    assert (path + [b])[..|path|] == path;
  }

  lemma {:induction false} SelectSelect(es: seq<Entry>, path: seq<bool>, b: bool)
    ensures Select(Select(es, path), path + [b]) == Select(es, path + [b])
  {
    if es != [] {
      var last := |es| - 1;
      var e, prior := es[last], Select(es[..last], path);
      SelectSelect(es[..last], path, b);
      if Passes(e, path + [b]) {
        PassesPrefix(e, path, b);
      }
      if Passes(e, path) {
        assert (prior + [e])[..|prior|] == prior;
      } else {
        assert prior + [] == prior;
      }
    }
  }

  lemma {:induction false} SelectAll(es: seq<Entry>)
    ensures Select(es, []) == es
  {
    if es != [] {
      var last := |es| - 1;
      SelectAll(es[..last]);
      assert es == es[..last] + [es[last]];
    }
  }

  /** On a path that no shorter code ends, an entry of exactly the path's length ends it. */
  lemma ExactEntryMeansLeaf(lens: seq<nat>, e: Entry, path: seq<bool>)
    requires InRange(lens, e) && Passes(e, path) && e.length == |path|
    ensures Value(path) < EndCode(lens, |path|)
  {
    ValueOfCodeBits(e.bits, e.length);
    assert path == CodeBits(e.bits, e.length);
  }

  lemma EntryWithCode(lens: seq<nat>, code: nat, length: nat) returns (e: Entry)
    requires FirstCode(lens, length) <= code < EndCode(lens, length)
    ensures e in Entries(lens, |lens|) && e.length == length && e.bits == code
  {
    e := EntryOf(lens, SymbolAt(lens, length, code - FirstCode(lens, length)));
    EntriesMember(lens, |lens|, e);
  }

  /** The entry that ends the path, if the path is a code. */
  lemma LeafEntry(lens: seq<nat>, path: seq<bool>) returns (e: Entry)
    requires FirstCode(lens, |path|) <= Value(path) < EndCode(lens, |path|)
    ensures e in Select(Entries(lens, |lens|), path) && e.length == |path| && e.bits == Value(path)
  {
    e := EntryWithCode(lens, Value(path), |path|);
    CodeBitsOfValue(path);
    SelectMember(Entries(lens, |lens|), path, e);
  }

  /** A padded path below the end of the code space is covered by a code of some length. */
  lemma {:induction false} CoveringCode(lens: seq<nat>, x: nat, m: nat) returns (k: nat)
    requires x < EndCode(lens, m)
    ensures 0 < k <= m && FirstCode(lens, k) <= Shr(x, m - k) < EndCode(lens, k)
    decreases m
  {
    if x >= FirstCode(lens, m) {
      k := m;
    } else {
      k := CoveringCode(lens, x / 2, m - 1);
    }
  }

  /** Entries reach a path that no shorter code ends exactly when it lies below the end of the
      code space. */
  lemma SelectEmptyIff(lens: seq<nat>, path: seq<bool>)
    requires |path| <= MaxLength(lens) && FirstCode(lens, |path|) <= Value(path)
    ensures Select(Entries(lens, |lens|), path) == []
       <==> Shl(Value(path), MaxLength(lens) - |path|) >= EndCode(lens, MaxLength(lens))
  {
    hide Entries, Select, Value, Shl, FirstCode, EndCode, MaxLength, Passes, InRange;
    var es, m := Entries(lens, |lens|), MaxLength(lens);
    if Shl(Value(path), m - |path|) < EndCode(lens, m) {
      var e := ReachingEntry(lens, path);
      assert e in Select(es, path);
    } else if Select(es, path) != [] {
      var e := Select(es, path)[0];
      SelectMember(es, path, e);
      EntryInRange(lens, e);
      ReachingIsBelowEnd(lens, path, e);
    }
  }

  lemma ReachingIsBelowEnd(lens: seq<nat>, path: seq<bool>, e: Entry)
    requires |path| <= MaxLength(lens)
    requires InRange(lens, e) && Passes(e, path)
    ensures Shl(Value(path), MaxLength(lens) - |path|) < EndCode(lens, MaxLength(lens))
  {
    PathBelowCode(path, e);
    BelowEndScales(lens, Value(path), |path|, e.length, MaxLength(lens));
  }

  lemma PathBelowCode(path: seq<bool>, e: Entry)
    requires Passes(e, path)
    ensures Shl(Value(path), e.length - |path|) <= e.bits
  {
    hide CodeBits, Value, Shl;
    PathBelowValue(path, CodeBits(e.bits, e.length));
    ValueOfCodeBits(e.bits, e.length);
  }

  lemma BelowEndScales(lens: seq<nat>, p: nat, l: nat, n: nat, m: nat)
    requires l <= n <= m && Shl(p, n - l) < EndCode(lens, n)
    ensures Shl(p, m - l) < EndCode(lens, m)
  {
    EndCodeScales(lens, n, m);
    ShlShl(p, n - l, m - n);
    ShlOrder(EndCode(lens, n), Shl(p, n - l), m - n);
  }

  lemma ReachingEntry(lens: seq<nat>, path: seq<bool>) returns (e: Entry)
    requires |path| <= MaxLength(lens) && FirstCode(lens, |path|) <= Value(path)
    requires Shl(Value(path), MaxLength(lens) - |path|) < EndCode(lens, MaxLength(lens))
    ensures e in Select(Entries(lens, |lens|), path)
  {
    hide Value, Shl, Entries, FirstCode, EndCode, CodeBits, Select, MaxLength;
    var m, p, l := MaxLength(lens), Value(path), |path|;
    var k := CoveringCode(lens, Shl(p, m - l), m);
    if k < l {
      NotCoveredAbove(lens, p, l, m, k);
    }
    CoveredBelow(p, l, m, k);
    e := EntryWithCode(lens, Shl(p, k - l), k);
    CodeBitsOfValue(path);
    CodeBitsPadded(p, l, k - l);
    SelectMember(Entries(lens, |lens|), path, e);
  }

  lemma NotCoveredAbove(lens: seq<nat>, p: nat, l: nat, m: nat, k: nat)
    requires k < l <= m && FirstCode(lens, l) <= p
    ensures Shr(Shl(p, m - l), m - k) >= EndCode(lens, k)
  {
    ShrOfShl(p, m - l);
    ShrAdd(Shl(p, m - l), m - l, l - k);
    EndCodeScales(lens, k, l - 1);
    ShrAdjoint(p, EndCode(lens, k), l - k);
  }

  lemma CoveredBelow(p: nat, l: nat, m: nat, k: nat)
    requires l <= k <= m
    ensures Shr(Shl(p, m - l), m - k) == Shl(p, k - l)
  {
    ShlShl(p, k - l, m - k);
    ShrOfShl(Shl(p, k - l), m - k);
  }

  lemma NullAbove(lens: seq<nat>, p: nat, l: nat)
    requires l <= MaxLength(lens) && FirstCode(lens, l) <= p
    requires Shl(p, MaxLength(lens) - l) >= EndCode(lens, MaxLength(lens))
    ensures Node(lens, p, l) == Null
  {
    var m := MaxLength(lens);
    EndCodeScales(lens, l, m);
    ShlOrder(EndCode(lens, l), p, m - l);
  }

  lemma BranchAt(lens: seq<nat>, p: nat, l: nat)
    requires l <= MaxLength(lens) && EndCode(lens, l) <= p
    requires Shl(p, MaxLength(lens) - l) < EndCode(lens, MaxLength(lens))
    ensures l < MaxLength(lens) && FirstCode(lens, l + 1) <= 2 * p
    ensures Node(lens, p, l) == Branch(Node(lens, 2 * p, l + 1), Node(lens, 2 * p + 1, l + 1))
  {
  }

  lemma LeafAt(lens: seq<nat>, e: Entry, p: nat, l: nat)
    requires l <= MaxLength(lens) && FirstCode(lens, l) <= p
    requires IsEntry(lens, e) && e.length == l && e.bits == p
    ensures Node(lens, p, l) == Leaf(e.index)
  {
    SymbolAtUnique(lens, e.index);
  }

  /** Below a path that is no code itself, every entry is longer than the path. */
  lemma LongerOnly(lens: seq<nat>, codes: seq<Entry>, path: seq<bool>)
    requires EndCode(lens, |path|) <= Value(path)
    requires codes == Select(Entries(lens, |lens|), path)
    ensures forall j :: 0 <= j < |codes| ==> codes[j].length > |path|
  {
    forall j | 0 <= j < |codes|
      ensures codes[j].length > |path|
    {
      SelectedEntry(lens, codes, path, j);
      if codes[j].length == |path| {
        ExactEntryMeansLeaf(lens, codes[j], path);
      }
    }
  }

  /** `x >> n` on 32-bit integers: the shift count is taken modulo 32. */
  function ShiftRight(x: nat, n: int): nat {
    Shr(x, n % 32)
  }

  /** buildTree (deflate.js). The codes are expected to come from buildCodes, or to agree with it. */
  method BuildTree(codes: seq<nat>, lengths: seq<nat>) returns (tree: Tree)
    requires |codes| == |lengths|
    requires forall s :: 0 <= s < |lengths| ==> lengths[s] <= MAX_CODE_LENGTH
    requires forall s :: 0 <= s < |lengths| && lengths[s] != 0 ==> codes[s] == Code(lengths, s)
    ensures tree == CodeTree(lengths)
  {
    var nonEmptyCodes := [];
    for i := 0 to |codes|
      invariant nonEmptyCodes == Entries(lengths, i)
    {
      if lengths[i] > 0 {
        nonEmptyCodes := nonEmptyCodes + [Entry(codes[i], lengths[i], i)];
      }
    }
    SelectAll(nonEmptyCodes);
    tree := BuildTreeBranch(nonEmptyCodes, 0, 0, lengths, []);
  }

  /** buildTreeBranch (deflate.js): splits the codes by their next bit until one of them ends. */
  method BuildTreeBranch(codes: seq<Entry>, prefix: nat, prefixLength: nat,
                         ghost lens: seq<nat>, ghost path: seq<bool>)
    returns (branch: Tree)
    requires prefix == Value(path) && prefixLength == |path| <= MaxLength(lens)
    requires FirstCode(lens, prefixLength) <= prefix
    requires forall s :: 0 <= s < |lens| ==> lens[s] <= MAX_CODE_LENGTH
    requires codes == Select(Entries(lens, |lens|), path)
    ensures branch == Node(lens, prefix, prefixLength)
    decreases MaxLength(lens) - prefixLength
  {
    hide Value, Shl, Entries, FirstCode, EndCode, MaxLength, Node, Passes, NextBit, Pow2, Code;
    SelectEmptyIff(lens, path);
    if |codes| == 0 {
      NullAbove(lens, prefix, prefixLength);
      return Null;
    }
    var zeros: seq<Entry>, ones: seq<Entry> := [], [];
    for i := 0 to |codes|
      invariant Halves(codes, i, path, zeros, ones)
    {
      SelectedEntry(lens, codes, path, i);
      if codes[i].length == prefixLength && codes[i].bits == prefix {
        LeafAt(lens, codes[i], prefix, prefixLength);
        return Leaf(codes[i].index);
      }
      SplitRound(codes, i, path, zeros, ones);
      if NextBit(codes[i], prefixLength) {
        ones := ones + [codes[i]];
      } else {
        zeros := zeros + [codes[i]];
      }
    }
    SplitDone(lens, codes, path, zeros, ones);
    BranchAt(lens, prefix, prefixLength);
    ValueStep(path, false);
    ValueStep(path, true);
    var zero := BuildTreeBranch(zeros, 2 * prefix, prefixLength + 1, lens, path + [false]);
    var one := BuildTreeBranch(ones, 2 * prefix + 1, prefixLength + 1, lens, path + [true]);
    branch := Branch(zero, one);
  }

  /** The loop of buildTreeBranch after i rounds: no code ended at the path, and as long as all of
      them are longer, they are split by their next bit. */
  ghost predicate Halves(codes: seq<Entry>, i: nat, path: seq<bool>, zeros: seq<Entry>, ones: seq<Entry>)
    requires i <= |codes|
  {
    && (forall j :: 0 <= j < i ==> !(codes[j].length == |path| && codes[j].bits == Value(path)))
    && ((forall j :: 0 <= j < i ==> codes[j].length > |path|) ==>
          && zeros == Select(codes[..i], path + [false])
          && ones == Select(codes[..i], path + [true]))
  }

  lemma SplitRound(codes: seq<Entry>, i: nat, path: seq<bool>, zeros: seq<Entry>, ones: seq<Entry>)
    requires i < |codes| && Halves(codes, i, path, zeros, ones)
    requires Passes(codes[i], path) && codes[i].length <= MAX_CODE_LENGTH
    requires !(codes[i].length == |path| && codes[i].bits == Value(path))
    ensures Halves(codes, i + 1, path,
                   if NextBit(codes[i], |path|) then zeros else zeros + [codes[i]],
                   if NextBit(codes[i], |path|) then ones + [codes[i]] else ones)
  {
    if codes[i].length > |path| {
      SplitStep(codes, i, path, false);
      SplitStep(codes, i, path, true);
    }
  }

  lemma SplitDone(lens: seq<nat>, codes: seq<Entry>, path: seq<bool>, zeros: seq<Entry>, ones: seq<Entry>)
    requires |path| <= MaxLength(lens) && FirstCode(lens, |path|) <= Value(path)
    requires codes == Select(Entries(lens, |lens|), path) && codes != []
    requires Halves(codes, |codes|, path, zeros, ones)
    ensures EndCode(lens, |path|) <= Value(path)
    ensures zeros == Select(Entries(lens, |lens|), path + [false])
    ensures ones == Select(Entries(lens, |lens|), path + [true])
  {
    NotALeaf(lens, codes, path);
    LongerOnly(lens, codes, path);
    assert codes[..|codes|] == codes;
    SelectSelect(Entries(lens, |lens|), path, false);
    SelectSelect(Entries(lens, |lens|), path, true);
  }

  lemma SelectedEntry(lens: seq<nat>, codes: seq<Entry>, path: seq<bool>, i: nat)
    requires codes == Select(Entries(lens, |lens|), path) && i < |codes|
    ensures Passes(codes[i], path) && IsEntry(lens, codes[i])
  {
    assert codes[i] in codes;
    SelectMember(Entries(lens, |lens|), path, codes[i]);
    EntryInRange(lens, codes[i]);
    EntriesMember(lens, |lens|, codes[i]);
  }

  /** The bit of an entry's code that follows a path of l bits. */
  predicate NextBit(e: Entry, l: nat) {
    ShiftRight(e.bits, e.length - l - 1) % 2 > 0
  }

  /** What one round of the splitting loop adds to the entries below path + [b]. */
  lemma SplitStep(codes: seq<Entry>, i: nat, path: seq<bool>, b: bool)
    requires i < |codes| && Passes(codes[i], path)
    requires |path| < codes[i].length <= MAX_CODE_LENGTH
    ensures Select(codes[..i + 1], path + [b])
         == Select(codes[..i], path + [b]) + if NextBit(codes[i], |path|) == b then [codes[i]] else []
  {
    SelectStep(codes, i, path + [b]);
    NextBitOnPath(codes[i], path, b);
  }

  lemma NextBitOnPath(e: Entry, path: seq<bool>, b: bool)
    requires |path| < e.length <= MAX_CODE_LENGTH && Passes(e, path)
    ensures Passes(e, path + [b]) <==> NextBit(e, |path|) == b
  {
    assert (e.length - |path| - 1) % 32 == e.length - |path| - 1;
    PassesStep(e, path, b);
  }

  lemma NotALeaf(lens: seq<nat>, codes: seq<Entry>, path: seq<bool>)
    requires FirstCode(lens, |path|) <= Value(path)
    requires codes == Select(Entries(lens, |lens|), path)
    requires forall j :: 0 <= j < |codes| ==> !(codes[j].length == |path| && codes[j].bits == Value(path))
    ensures EndCode(lens, |path|) <= Value(path)
  {
    if Value(path) < EndCode(lens, |path|) {
      var e := LeafEntry(lens, path);
    }
  }
}
