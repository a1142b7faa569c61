/** What the decoding trees of deflate.js do with every vector of code lengths: which symbols can be
    reached, by which bits, and when a walk can fall off the tree. */
module HuffmanTrees {
  import opened Powers
  import opened Huffman

  /** The subtree that a walk along the given bits arrives at; past a leaf there is nothing. */
  function Descend(t: Tree, bits: seq<bool>): Tree {
    if bits == [] then t
    else
      match t
      case Branch(zero, one) => Descend(if bits[0] then one else zero, bits[1..])
      case _ => Null
  }

  lemma {:induction false} DescendStep(t: Tree, path: seq<bool>, b: bool)
    ensures Descend(t, path + [b]) == Descend(Descend(t, path), [b])
  {
    if path == [] {
      assert [] + [b] == [b];
    } else {
      assert (path + [b])[1..] == path[1..] + [b];
      match t
      case Branch(zero, one) => DescendStep(if path[0] then one else zero, path[1..], b);
      case _ =>
    }
  }

  /** A path leads to the node of its value, as long as it lies below the end of the code space
      and no code ends above it. */
  lemma {:induction false} DescendIsNode(lens: seq<nat>, path: seq<bool>)
    requires |path| <= MaxLength(lens) && FirstCode(lens, |path|) <= Value(path)
    requires Shl(Value(path), MaxLength(lens) - |path|) < EndCode(lens, MaxLength(lens))
    ensures Descend(CodeTree(lens), path) == Node(lens, Value(path), |path|)
  {
    hide *;
    if path == [] {
      RootIsNode(lens);
    } else {
      var l := |path| - 1;
      var parent := path[..l];
      assert path == parent + [path[l]];
      ParentNotCovered(lens, path);
      ParentBelow(path, MaxLength(lens) - |path|);
      assert MaxLength(lens) - |path| + 1 == MaxLength(lens) - l;
      DescendIsNode(lens, parent);
      ChildIsNode(lens, parent, path[l]);
    }
  }

  lemma ChildIsNode(lens: seq<nat>, parent: seq<bool>, b: bool)
    requires |parent| <= MaxLength(lens) && EndCode(lens, |parent|) <= Value(parent)
    requires FirstCode(lens, |parent|) <= Value(parent)
    requires Shl(Value(parent), MaxLength(lens) - |parent|) < EndCode(lens, MaxLength(lens))
    requires Descend(CodeTree(lens), parent) == Node(lens, Value(parent), |parent|)
    ensures |parent| < MaxLength(lens) && FirstCode(lens, |parent| + 1) <= Value(parent + [b])
    ensures Descend(CodeTree(lens), parent + [b]) == Node(lens, Value(parent + [b]), |parent| + 1)
  {
    hide *;
    DescendStep(CodeTree(lens), parent, b);
    BranchAt(lens, Value(parent), |parent|);
    OneBit(lens, Value(parent), |parent|, b);
    ValueStep(parent, b);
  }

  lemma RootIsNode(lens: seq<nat>)
    ensures Descend(CodeTree(lens), []) == Node(lens, Value([]), 0)
  {
  }

  lemma ParentNotCovered(lens: seq<nat>, path: seq<bool>)
    requires path != [] && FirstCode(lens, |path|) <= Value(path)
    ensures EndCode(lens, |path| - 1) <= Value(path[..|path| - 1])
    ensures FirstCode(lens, |path| - 1) <= Value(path[..|path| - 1])
  {
  }

  lemma ParentBelow(path: seq<bool>, n: nat)
    requires path != []
    ensures Shl(Value(path[..|path| - 1]), n + 1) <= Shl(Value(path), n)
  {
    var p := Value(path[..|path| - 1]);
    ShlDouble(p, n);
    ShlOrder(2 * p, Value(path), n);
  }

  lemma OneBit(lens: seq<nat>, p: nat, l: nat, b: bool)
    requires l < MaxLength(lens) && FirstCode(lens, l) <= p && FirstCode(lens, l + 1) <= 2 * p
    requires Node(lens, p, l) == Branch(Node(lens, 2 * p, l + 1), Node(lens, 2 * p + 1, l + 1))
    ensures Descend(Node(lens, p, l), [b]) == Node(lens, 2 * p + if b then 1 else 0, l + 1)
  {
    hide Node;
  }

  /** Walking the bits of a symbol's code ends at exactly that symbol's leaf. */
  lemma CodeReachesSymbol(lens: seq<nat>, s: nat)
    requires s < |lens| && lens[s] > 0 && Fits(lens, s)
    ensures Descend(CodeTree(lens), CodeBits(Code(lens, s), lens[s])) == Leaf(s)
  {
    hide Node, EndCode, FirstCode, Shl, Value, CodeBits;
    var c, l, m := Code(lens, s), lens[s], MaxLength(lens);
    var path := CodeBits(c, l);
    ValueOfCodeBits(c, l);
    CodeInRange(lens, s);
    CodeBelowEnd(lens, c, l);
    DescendIsNode(lens, path);
    LeafAt(lens, EntryOf(lens, s), c, l);
  }

  lemma CodeBelowEnd(lens: seq<nat>, c: nat, l: nat)
    requires l <= MaxLength(lens) && c < EndCode(lens, l)
    ensures Shl(c, MaxLength(lens) - l) < EndCode(lens, MaxLength(lens))
  {
    BelowEndScales(lens, c, l, l, MaxLength(lens));
  }

  /** The number spelled by bits after p. */
  function Extend(p: nat, bits: seq<bool>): nat
    decreases |bits|
  {
    if bits == [] then p else Extend(2 * p + if bits[0] then 1 else 0, bits[1..])
  }

  lemma {:induction false} ExtendIsValue(path: seq<bool>, bits: seq<bool>)
    ensures Extend(Value(path), bits) == Value(path + bits)
    decreases |bits|
  {
    if bits == [] {
      assert path + bits == path;
    } else {
      ValueStep(path, bits[0]);
      ExtendIsValue(path + [bits[0]], bits[1..]);
      assert path + [bits[0]] + bits[1..] == path + bits;
    }
  }

  lemma {:induction false} LeafBelowNode(lens: seq<nat>, p: nat, l: nat, bits: seq<bool>, s: nat)
    requires l <= MaxLength(lens) && FirstCode(lens, l) <= p
    requires Descend(Node(lens, p, l), bits) == Leaf(s)
    ensures s < |lens| && lens[s] == l + |bits| && Code(lens, s) == Extend(p, bits)
    decreases |bits|
  {
    if bits != [] {
      LeafBelowNode(lens, 2 * p + if bits[0] then 1 else 0, l + 1, bits[1..], s);
    }
  }

  /** Whatever bits reach a symbol are the bits of its code, which then fits its length. */
  lemma ReachedSymbolHasCode(lens: seq<nat>, bits: seq<bool>, s: nat)
    requires Descend(CodeTree(lens), bits) == Leaf(s)
    ensures s < |lens| && lens[s] > 0 && Fits(lens, s)
    ensures bits == CodeBits(Code(lens, s), lens[s])
  {
    LeafBelowNode(lens, 0, 0, bits, s);
    ExtendIsValue([], bits);
    assert [] + bits == bits;
    ValueBound(bits);
    CodeBitsOfValue(bits);
  }

  /** The symbols that the tree can produce are exactly the used ones whose code fits. */
  lemma ReachableIffFits(lens: seq<nat>, s: nat)
    ensures (exists bits :: Descend(CodeTree(lens), bits) == Leaf(s))
       <==> s < |lens| && lens[s] > 0 && Fits(lens, s)
  {
    if bits :| Descend(CodeTree(lens), bits) == Leaf(s) {
      ReachedSymbolHasCode(lens, bits, s);
    }
    if s < |lens| && lens[s] > 0 && Fits(lens, s) {
      CodeReachesSymbol(lens, s);
    }
  }

  ghost predicate EverySymbolReachable(lens: seq<nat>) {
    forall s :: 0 <= s < |lens| && lens[s] > 0 ==> exists bits :: Descend(CodeTree(lens), bits) == Leaf(s)
  }

  /** No used symbol is lost exactly when the Kraft sum is at most one. */
  lemma EverySymbolReachableIffKraft(lens: seq<nat>)
    ensures EverySymbolReachable(lens) <==> KraftSum(lens) <= Pow2(MaxLength(lens))
  {
    hide Descend, CodeTree, KraftSum, MaxLength, Fits;
    CodesFitIffKraft(lens);
    forall s | 0 <= s < |lens| && lens[s] > 0
      ensures (exists bits :: Descend(CodeTree(lens), bits) == Leaf(s)) <==> Fits(lens, s)
    {
      ReachableIffFits(lens, s);
    }
  }

  /** No walk meets a missing branch. */
  predicate Full(t: Tree) {
    match t
    case Null => false
    case Leaf(_) => true
    case Branch(zero, one) => Full(zero) && Full(one)
  }

  lemma FullUnfold(lens: seq<nat>, p: nat, l: nat)
    requires l <= MaxLength(lens) && FirstCode(lens, l) <= p
    ensures p < EndCode(lens, l) ==> Full(Node(lens, p, l))
    ensures p >= EndCode(lens, l) && Shl(p, MaxLength(lens) - l) >= EndCode(lens, MaxLength(lens)) ==>
      !Full(Node(lens, p, l))
  {
  }

  lemma {:induction false} FullNode(lens: seq<nat>, p: nat, l: nat)
    requires l <= MaxLength(lens) && FirstCode(lens, l) <= p
    ensures Full(Node(lens, p, l))
       <==> Shl(p + 1, MaxLength(lens) - l) <= EndCode(lens, MaxLength(lens))
    decreases MaxLength(lens) - l
  {
    hide EndCode, FirstCode, MaxLength, Shl, Node;
    var m := MaxLength(lens);
    FullUnfold(lens, p, l);
    if p < EndCode(lens, l) {
      EndCodeScales(lens, l, m);
      ShlOrder(p + 1, EndCode(lens, l), m - l);
    } else if Shl(p, m - l) >= EndCode(lens, m) {
      ShlSum(p, 1, m - l);
    } else {
      BranchAt(lens, p, l);
      FullNode(lens, 2 * p, l + 1);
      FullNode(lens, 2 * p + 1, l + 1);
      ShlDouble(p + 1, m - l - 1);
      ShlOrder(2 * p + 1, 2 * p + 2, m - l - 1);
    }
  }

  /** No walk can meet a missing branch exactly when the Kraft sum is at least one. */
  lemma FullIffKraft(lens: seq<nat>)
    ensures Full(CodeTree(lens)) <==> Pow2(MaxLength(lens)) <= KraftSum(lens)
  {
    hide Node, EndCode, KraftSum, MaxLength, Full;
    FullNode(lens, 0, 0);
    KraftIsEndCode(lens);
    assert FirstCode(lens, 0) == 0;
  }

  lemma {:induction false} FullMeansNoNull(t: Tree, bits: seq<bool>)
    requires Full(t)
    ensures (exists k :: 0 <= k <= |bits| && Descend(t, bits[..k]).Leaf?) || Descend(t, bits).Branch?
  {
    if t.Leaf? {
      assert Descend(t, bits[..0]).Leaf?;
    } else if bits != [] {
      var next := if bits[0] then t.one else t.zero;
      FullMeansNoNull(next, bits[1..]);
      if k :| 0 <= k <= |bits[1..]| && Descend(next, bits[1..][..k]).Leaf? {
        assert bits[..k + 1][1..] == bits[1..][..k];
        assert Descend(t, bits[..k + 1]).Leaf?;
      }
    }
  }

  /** All codes stay within 32-bit integers, so the shifts of deflate.js lose nothing: a stream
      declares at most 288 + 32 lengths of at most 15 bits each. */
  lemma CodesFitMachineWords(lens: seq<nat>, s: nat)
    requires |lens| <= 320 && MaxLength(lens) <= MAX_CODE_LENGTH
    requires s < |lens| && lens[s] > 0
    ensures Code(lens, s) < 0x8000_0000
  {
    CodeInRange(lens, s);
    EndCodeBound(lens, |lens|, lens[s]);
    assert lens[..|lens|] == lens;
    ShlMonotonic(|lens|, lens[s], 15);
    ShlOrder(|lens|, 320, 15);
    assert Shl(320, 15) == 10485760;
  }

  lemma {:induction false} EndCodeBound(lens: seq<nat>, n: nat, b: nat)
    requires n <= |lens|
    ensures EndCode(lens[..n], b) <= Shl(n, b)
    decreases n
  {
    if n == 0 {
      EndCodeOfEmpty(b);
    } else {
      EndCodeBound(lens, n - 1, b);
      EndCodeOfPrefix(lens, n - 1, b);
      ShlSum(n - 1, 1, b);
      if 0 < lens[n - 1] <= b {
        ShlMonotonic(1, b - lens[n - 1], b);
      }
    }
  }
}
