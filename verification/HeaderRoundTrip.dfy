/** Dynamic block headers read back: the code-length code, the runs coded with it, and the two
    length vectors (RFC 1951, section 3.2.7). */
module HeaderRoundTrip {
  import opened Octets
  import opened Powers
  import opened Results
  import opened BitStreams
  import opened Huffman
  import opened Inflate
  import opened Deflate
  import opened InflateRoundTrip

  // ----- Code-length code lengths -----

  /** Where each symbol of the code-length code is sent. */
  const CLEN_POSITION: seq<nat> := [3, 17, 15, 13, 11, 9, 7, 5, 4, 6, 8, 10, 12, 14, 16, 18, 0, 1, 2]

  lemma ClenMapIsPermutation(i: nat)
    requires i < 19
    ensures |CLEN_MAP| == 19
    ensures CLEN_POSITION[i] < 19 && CLEN_MAP[CLEN_POSITION[i]] == i
    ensures CLEN_MAP[i] < 19 && CLEN_POSITION[CLEN_MAP[i]] == i
  {
  }

  function FirstSent(clen: seq<nat>, n: nat): (r: seq<nat>)
    requires |clen| == 19
    ensures |r| == 19
  {
    seq(19, k requires 0 <= k < 19 => if CLEN_POSITION[k] < n then clen[k] else 0)
  }

  lemma FirstSentStep(clen: seq<nat>, n: nat)
    requires |clen| == 19 && n < 19
    ensures FirstSent(clen, n + 1) == FirstSent(clen, n)[CLEN_MAP[n] := clen[CLEN_MAP[n]]]
  {
    var a, b := FirstSent(clen, n + 1), FirstSent(clen, n)[CLEN_MAP[n] := clen[CLEN_MAP[n]]];
    forall k: nat | k < 19
      ensures a[k] == b[k]
    {
      ClenMapIsPermutation(k);
      ClenMapIsPermutation(n);
    }
  }

  lemma {:induction false} ClenReadsBack(clen: seq<nat>, n: nat, data: seq<byte>, pos: nat)
    requires |clen| == 19 && (forall i :: 0 <= i < 19 ==> clen[i] < Pow2(3)) && n <= 19
    requires HasBits(data, pos, ClenBits(clen, n))
    ensures CodeLengthLengths(data, pos, n) == FirstSent(clen, n)
    decreases n
  {
    hide FirstSent, CLEN_MAP, LsbBits, HasBits, LsbValue;
    if n == 0 {
      NothingSent(clen);
    } else {
      ClenMapIsPermutation(n - 1);
      var symbol := CLEN_MAP[n - 1];
      HasBitsSplit(data, pos, ClenBits(clen, n - 1), LsbBits(clen[symbol], 3));
      ClenReadsBack(clen, n - 1, data, pos);
      ReadsBack(data, pos + 3 * (n - 1), clen[symbol], 3);
      FirstSentStep(clen, n - 1);
    }
  }

  lemma NothingSent(clen: seq<nat>)
    requires |clen| == 19
    ensures FirstSent(clen, 0) == Repeat(0, 19)
  {
  }

  lemma AllSent(clen: seq<nat>, hclen: nat)
    requires |clen| == 19 && hclen <= 19
    requires forall i :: hclen <= i < 19 ==> clen[CLEN_MAP[i]] == 0
    ensures FirstSent(clen, hclen) == clen
  {
    forall k: nat | k < 19
      ensures FirstSent(clen, hclen)[k] == clen[k]
    {
      ClenMapIsPermutation(k);
    }
  }

  // ----- Runs -----

  lemma RunReadsBack(clen: seq<nat>, run: Run, lens: seq<nat>, data: seq<byte>, pos: nat)
    requires ValidRun(clen, run, lens) && HasBits(data, pos, RunBits(clen, run, lens))
    ensures var p := pos + |SymbolBits(clen, RunCode(run))|;
      && ReadSymbol(CodeTree(clen), data, pos) == Ok((RunCode(run), p))
      && ReadRun(RunCode(run), data, p, lens)
           == Ok((AddRun(clen, run, lens), pos + |RunBits(clen, run, lens)|))
  {
    hide Usable, SymbolBits, CodeTree, ReadSymbol, HasBits, LsbBits, LsbValue, Repeat, Shl;
    var bits := SymbolBits(clen, RunCode(run));
    var extra := RunExtra(run);
    HasBitsSplit(data, pos, bits, LsbBits(extra.0, extra.1));
    SymbolReadsBack(clen, RunCode(run), data, pos);
    ReadsBack(data, pos + |bits|, extra.0, extra.1);
  }

  /** The additional bits of a run, and how many. */
  function RunExtra(run: Run): (nat, nat) {
    match run
    case Length(_) => (0, 0)
    case Previous(extra) => (extra, 2)
    case Zeros(extra) => (extra, 3)
    case ManyZeros(extra) => (extra, 7)
  }

  lemma {:induction false} RunsFit(clen: seq<nat>, runs: seq<Run>, lens: seq<nat>, total: nat)
    requires ValidRuns(clen, runs, lens, total)
    ensures |lens| <= total && (runs != [] ==> |lens| < total)
    decreases |runs|
  {
    if runs != [] {
      RunsFit(clen, runs[1..], AddRun(clen, runs[0], lens), total);
    }
  }

  lemma {:induction false} RunsReadBack(clen: seq<nat>, runs: seq<Run>, lens: seq<nat>, total: nat,
                                       data: seq<byte>, pos: nat)
    requires ValidRuns(clen, runs, lens, total) && HasBits(data, pos, RunsBits(clen, runs, lens, total))
    ensures ReadLengths(clen, data, pos, lens, total)
         == Ok((AddRuns(clen, runs, lens, total), pos + |RunsBits(clen, runs, lens, total)|))
    decreases |runs|
  {
    hide Usable, SymbolBits, CodeTree, ReadSymbol, ReadRun, AddRun, RunBits, RunCode, ValidRun, HasBits;
    RunsFit(clen, runs, lens, total);
    if runs != [] {
      var first, next := RunBits(clen, runs[0], lens), AddRun(clen, runs[0], lens);
      HasBitsSplit(data, pos, first, RunsBits(clen, runs[1..], next, total));
      RunReadsBack(clen, runs[0], lens, data, pos);
      RunsReadBack(clen, runs[1..], next, total, data, pos + |first|);
    }
  }

  // ----- Headers -----

  lemma HeaderReadsBack(h: Header, data: seq<byte>, pos: nat)
    requires ValidHeader(h) && HasBits(data, pos, HeaderBits(h))
    ensures ReadTrees(data, pos) == Ok((HeaderTrees(h), pos + |HeaderBits(h)|))
  {
    hide HasBits, LsbBits, LsbValue, ClenBits, RunsBits, AddRuns, ValidRuns, ReadLengths, CodeLengthLengths;
    hide FirstSent, CLEN_MAP;
    var total := h.hlit + h.hdist;
    var a, b, c := LsbBits(h.hlit - 257, 5), LsbBits(h.hdist - 1, 5), LsbBits(h.hclen - 4, 4);
    var d, e := ClenBits(h.clen, h.hclen), RunsBits(h.clen, h.runs, [], total);
    HasBitsSplit(data, pos, a, b + (c + (d + e)));
    HasBitsSplit(data, pos + 5, b, c + (d + e));
    HasBitsSplit(data, pos + 10, c, d + e);
    HasBitsSplit(data, pos + 14, d, e);
    ReadsBack(data, pos, h.hlit - 257, 5);
    ReadsBack(data, pos + 5, h.hdist - 1, 5);
    ReadsBack(data, pos + 10, h.hclen - 4, 4);
    ClenReadsBack(h.clen, h.hclen, data, pos + 14);
    AllSent(h.clen, h.hclen);
    RunsReadBack(h.clen, h.runs, [], total, data, pos + 14 + 3 * h.hclen);
    var lens := AddRuns(h.clen, h.runs, [], total);
    assert lens[h.hlit..] == lens[h.hlit..h.hlit + h.hdist];
  }

}
