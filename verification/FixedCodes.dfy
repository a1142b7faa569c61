/** The predefined codes of fixed blocks: the formulas of initializeStaticTrees in deflate.js are the
    canonical codes of the lengths in RFC 1951, section 3.2.6. */
module FixedCodes {
  import opened Powers
  import opened Huffman
  import opened Inflate

  lemma {:induction false} CountAppend(a: seq<nat>, b: seq<nat>, x: nat)
    ensures Count(a + b, x) == Count(a, x) + Count(b, x)
    decreases |b|
  {
    if b == [] {
      assert a + b == a;
    } else {
      CountAppend(a, b[..|b| - 1], x);
      assert (a + b)[..|a + b| - 1] == a + b[..|b| - 1];
    }
  }

  lemma {:induction false} CountRepeat(v: nat, n: nat, x: nat)
    ensures Count(Repeat(v, n), x) == if v == x then n else 0
    decreases n
  {
    if n > 0 {
      CountRepeat(v, n - 1, x);
      assert Repeat(v, n)[..n - 1] == Repeat(v, n - 1);
    }
  }

  /** Counting in a vector made of four runs, up to position s. */
  lemma CountRuns(s: nat, x: nat)
    requires s <= 288
    ensures Count(FixedLengths()[..s], x)
         == (if x == 8 then Min(s, 144) + (Max(s, 280) - 280)
             else if x == 9 then Min(Max(s, 144), 256) - 144
             else if x == 7 then Min(Max(s, 256), 280) - 256 else 0)
  {
    var a, b, c, d := Min(s, 144), Min(Max(s, 144), 256) - 144, Min(Max(s, 256), 280) - 256, Max(s, 280) - 280;
    assert FixedLengths()[..s] == Repeat(8, a) + Repeat(9, b) + Repeat(7, c) + Repeat(8, d);
    CountAppend(Repeat(8, a) + Repeat(9, b) + Repeat(7, c), Repeat(8, d), x);
    CountAppend(Repeat(8, a) + Repeat(9, b), Repeat(7, c), x);
    CountAppend(Repeat(8, a), Repeat(9, b), x);
    CountRepeat(8, a, x);
    CountRepeat(9, b, x);
    CountRepeat(7, c, x);
    CountRepeat(8, d, x);
  }

  function Min(a: nat, b: nat): nat {
    if a < b then a else b
  }

  function Max(a: nat, b: nat): nat {
    if a < b then b else a
  }

  lemma {:induction false} FirstCodeZero(lens: seq<nat>, b: nat)
    requires forall k :: 0 < k < b ==> Count(lens, k) == 0
    ensures FirstCode(lens, b) == 0
    decreases b
  {
    if b > 0 {
      FirstCodeZero(lens, b - 1);
    }
  }

  lemma FixedCounts(x: nat)
    ensures Count(FixedLengths(), x) == if x == 8 then 152 else if x == 9 then 112 else if x == 7 then 24 else 0
  {
    CountRuns(288, x);
    assert FixedLengths()[..288] == FixedLengths();
  }

  lemma FixedFirstCodes()
    ensures FirstCode(FixedLengths(), 7) == 0
    ensures FirstCode(FixedLengths(), 8) == 0x30
    ensures FirstCode(FixedLengths(), 9) == 0x190
  {
    hide FixedLengths, Count;
    forall k: nat | 0 < k < 9
      ensures Count(FixedLengths(), k) == if k == 8 then 152 else if k == 7 then 24 else 0
    {
      FixedCounts(k);
    }
    FirstCodeZero(FixedLengths(), 7);
  }

  /** The codes that initializeStaticTrees writes down. */
  function StaticCode(s: nat): nat {
    if s <= 143 then 0x0030 + s
    else if s <= 255 then 0x0190 + s - 144
    else if s <= 279 then 0x0000 + s - 256
    else 0x00C0 + s - 280
  }

  lemma FixedCode(s: nat)
    requires s < 288
    ensures Code(FixedLengths(), s) == StaticCode(s)
  {
    hide Count, FirstCode;
    FixedFirstCodes();
    CountRuns(s, FixedLengths()[s]);
  }

  lemma FixedDistanceCode(s: nat)
    requires s < 32
    ensures Code(FixedDistances(), s) == s
  {
    forall k: nat | 0 < k < 5
      ensures Count(FixedDistances(), k) == 0
    {
      CountRepeat(5, 32, k);
    }
    FirstCodeZero(FixedDistances(), 5);
    assert FixedDistances()[..s] == Repeat(5, s);
    CountRepeat(5, s, 5);
  }

  /** initializeStaticTrees (deflate.js). */
  method InitializeStaticTrees() returns (staticCodes: Tree, staticDistances: Tree)
    ensures staticCodes == CodeTree(FixedLengths())
    ensures staticDistances == CodeTree(FixedDistances())
  {
    hide Code, CodeTree;
    var codes := new nat[288];
    var codesLengths := new nat[288];
    for i := 0 to 144
      invariant forall k :: 0 <= k < i ==> codes[k] == StaticCode(k) && codesLengths[k] == FixedLengths()[k]
    {
      codes[i], codesLengths[i] := 0x0030 + i, 8;
    }
    for i := 144 to 256
      invariant forall k :: 0 <= k < i ==> codes[k] == StaticCode(k) && codesLengths[k] == FixedLengths()[k]
    {
      codes[i], codesLengths[i] := 0x0190 + i - 144, 9;
    }
    for i := 256 to 280
      invariant forall k :: 0 <= k < i ==> codes[k] == StaticCode(k) && codesLengths[k] == FixedLengths()[k]
    {
      codes[i], codesLengths[i] := 0x0000 + i - 256, 7;
    }
    for i := 280 to 288
      invariant forall k :: 0 <= k < i ==> codes[k] == StaticCode(k) && codesLengths[k] == FixedLengths()[k]
    {
      codes[i], codesLengths[i] := 0x00C0 + i - 280, 8;
    }
    assert codesLengths[..] == FixedLengths();
    forall s: nat | s < 288
      ensures codes[s] == Code(FixedLengths(), s)
    {
      FixedCode(s);
    }
    staticCodes := BuildTree(codes[..], codesLengths[..]);

    var distances := new nat[32];
    var distancesLengths := new nat[32];
    for i := 0 to 32
      invariant forall k :: 0 <= k < i ==> distances[k] == k && distancesLengths[k] == 5
    {
      distances[i], distancesLengths[i] := i, 5;
    }
    assert distancesLengths[..] == FixedDistances();
    forall s: nat | s < 32
      ensures distances[s] == Code(FixedDistances(), s)
    {
      FixedDistanceCode(s);
    }
    staticDistances := BuildTree(distances[..], distancesLengths[..]);
  }
}
