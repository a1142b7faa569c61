/** Decryption undoes encryption, for every pair of table primes and every plain text. */
module RsaRoundTrip {
  import opened Powers
  import opened NumberTheory
  import opened PrimeTable
  import opened RsaKeys
  import opened Decimals
  import opened RsaText

  // ----- Numbers -----

  /** The private exponent undoes the public one on every number below the modulus. */
  lemma PowersInvert(p: TablePrime, q: TablePrime, n: nat, e: nat, d: nat, x: nat)
    requires KeysFor(p, q, n, e, d) && x < n
    ensures n > 0 && ModPow(ModPow(x, e, n), d, n) == x
  {
    hide Congruent, Pow, Primes, NoSmallFactor;
    var i: nat :| i < |Primes()| && Primes()[i] == e;
    TableEntryIsPrime(p);
    TableEntryIsPrime(q);
    RsaIdentity(p, q, x, e * d);
    PowPow(x, e, d);
    PowerNonNegative(x, e);
    CongruentMod(Pow(x, e), n);
    CongruentSymmetric(Pow(x, e), Pow(x, e) % n, n);
    PowCongruent(Pow(x, e) % n, Pow(x, e), d, n);
    CongruentMeansEqualMod(Pow(Pow(x, e) % n, d), Pow(Pow(x, e), d), n);
  }

  lemma {:induction false} PowerNonNegative(x: nat, e: nat)
    ensures Pow(x, e) >= 0
  {
    if e > 0 {
      PowerNonNegative(x, e - 1);
    }
  }

  // ----- Blocks -----

  lemma {:induction false} FromDecimalAppend(s: string, t: string)
    requires Digits(s) && Digits(t)
    ensures |t| == 1 ==> FromDecimal(s + t) == 10 * FromDecimal(s) + DigitValue(t[0])
    ensures |t| == 2 ==>
      FromDecimal(s + t) == 100 * FromDecimal(s) + 10 * DigitValue(t[0]) + DigitValue(t[1])
  {
    if |t| == 1 {
      assert (s + t)[..|s|] == s;
    } else if |t| == 2 {
      assert (s + t)[..|s| + 1] == s + t[..1];
      assert (s + t[..1])[..|s|] == s;
    }
  }

  lemma LetterCodeDigits(c: char)
    requires 32 <= c as int <= 126
    ensures var s := LetterCode(c); 10 * DigitValue(s[0]) + DigitValue(s[1]) == c as int - 30
  {
    var code := c as int - 30;
    if code >= 10 {
      assert ToDecimal(code / 10) == [Digit(code / 10)];
    }
  }

  lemma OneMoreCode(m: string)
    requires PlainText(m) && m != ""
    ensures PlainText(m[..|m| - 1])
    ensures FromDecimal("1" + Codes(m)) <= 100 * FromDecimal("1" + Codes(m[..|m| - 1])) + 96
  {
    hide LetterCode, FromDecimal, Codes;
    var last := |m| - 1;
    CodesLast(m);
    LetterCodeDigits(m[last]);
    var s, a, t := "1" + Codes(m), "1" + Codes(m[..last]), LetterCode(m[last]);
    assert s == a + t;
    FromDecimalAppend(a, t);
  }

  lemma CodesLast(m: string)
    requires PlainText(m) && m != ""
    ensures PlainText(m[..|m| - 1]) && 32 <= m[|m| - 1] as int <= 126
    ensures Codes(m) == Codes(m[..|m| - 1]) + LetterCode(m[|m| - 1])
  {
    hide LetterCode, Digits;
  }

  lemma {:induction false} CodesOfShort(m: string)
    requires PlainText(m) && |m| <= 3
    ensures FromDecimal("1" + Codes(m)) <=
      if |m| == 0 then 1 else if |m| == 1 then 196 else if |m| == 2 then 19696 else 1969696
  {
    if m == "" {
      assert "1" + "" == "1";
      assert FromDecimal("1") == 1;
    } else {
      hide Codes, FromDecimal, Digits;
      OneMoreCode(m);
      CodesOfShort(m[..|m| - 1]);
    }
  }

  /** Every block is a number below every modulus. */
  lemma BlockBelowModulus(chunk: string, p: TablePrime, q: TablePrime)
    requires PlainText(chunk) && |chunk| <= 3
    ensures FromDecimal(BlockOf(chunk)) < p * q
  {
    hide Codes, FromDecimal, NoSmallFactor;
    CodesOfShort(chunk);
    FromDecimalAppend("1" + Codes(chunk), "1");
    ProductBound(4507, 4507, p, q);
  }

  /** What becomes of one block: encrypted, decrypted and stripped, it is the codes it was made of. */
  lemma BlockRoundTrip(chunk: string, p: TablePrime, q: TablePrime, n: nat, e: nat, d: nat)
    requires PlainText(chunk) && |chunk| <= 3 && KeysFor(p, q, n, e, d)
    ensures n > 0
    ensures var c := ModPow(FromDecimal(BlockOf(chunk)), e, n);
      Inner(ToDecimal(ModPow(FromDecimal(ToDecimal(c)), d, n))) == Codes(chunk)
  {
    hide Codes, FromDecimal, ToDecimal, Pow, NoSmallFactor, Primes, Congruent;
    BlockBelowModulus(chunk, p, q);
    var x := FromDecimal(BlockOf(chunk));
    PowersInvert(p, q, n, e, d, x);
    FromToDecimal(ModPow(x, e, n));
    ToFromDecimal(BlockOf(chunk));
  }

  // ----- Strings of numbers -----

  function DecimalList(ns: seq<nat>): (r: seq<string>)
    ensures |r| == |ns| && AllDigits(r)
  {
    if ns == [] then [] else DecimalList(ns[..|ns| - 1]) + [ToDecimal(ns[|ns| - 1])]
  }

  /** Splitting what was written before a space, a digit string and what follows. */
  lemma {:induction false} SplitAtSpace(a: string, b: string)
    ensures Split(a + " " + b) == Split(a) + Split(b)
    decreases |a|
  {
    var s := a + " " + b;
    if a == "" {
      assert s == " " + b;
      assert s[1..] == b;
    } else {
      SplitAtSpace(a[1..], b);
      assert s[1..] == a[1..] + " " + b;
      assert s[0] == a[0];
      PutInFirst(s[0], Split(a[1..]), Split(b));
    }
  }

  lemma PutInFirst(c: char, x: seq<string>, y: seq<string>)
    requires x != []
    ensures [[c] + (x + y)[0]] + (x + y)[1..] == ([[c] + x[0]] + x[1..]) + y
    ensures [""] + (x + y) == ([""] + x) + y
  {
  }

  lemma {:induction false} SplitOfDigits(s: string)
    requires Digits(s)
    ensures Split(s) == [s]
  {
    if s != "" {
      SplitOfDigits(s[1..]);
      assert [s[0]] + s[1..] == s;
    }
  }

  /** The numbers separated by single spaces. */
  function Joined(ns: seq<nat>): string
    requires ns != []
  {
    if |ns| == 1 then ToDecimal(ns[0])
    else Joined(ns[..|ns| - 1]) + " " + ToDecimal(ns[|ns| - 1])
  }

  lemma {:induction false} SpacedIsJoined(ns: seq<nat>)
    requires ns != []
    ensures Spaced(ns) == Joined(ns) + " "
  {
    if |ns| > 1 {
      SpacedIsJoined(ns[..|ns| - 1]);
    } else {
      assert ns[..0] == [];
    }
  }

  lemma {:induction false} JoinedEnds(ns: seq<nat>)
    requires ns != []
    ensures var s := Joined(ns);
      |s| > 0 && IsDigit(s[0]) && IsDigit(s[|s| - 1]) && CipherText(s)
  {
    if |ns| > 1 {
      JoinedEnds(ns[..|ns| - 1]);
    }
  }

  lemma TrimOfJoined(s: string)
    requires |s| > 0 && IsDigit(s[0]) && IsDigit(s[|s| - 1])
    ensures Trim(s + " ") == s
  {
    var t := s + " ";
    assert t[0] == s[0] && t[|s|] == ' ' && t[..|s|] == s;
    assert TrimStart(t) == t;
    assert TrimEnd(t) == TrimEnd(s) == s;
  }

  lemma {:induction false} SplitOfJoined(ns: seq<nat>)
    requires ns != []
    ensures Split(Joined(ns)) == DecimalList(ns)
  {
    hide ToDecimal, Split;
    if |ns| == 1 {
      SplitOfDigits(ToDecimal(ns[0]));
      assert ns[..0] == [];
    } else {
      var last := ToDecimal(ns[|ns| - 1]);
      SplitOfJoined(ns[..|ns| - 1]);
      SplitAtSpace(Joined(ns[..|ns| - 1]), last);
      SplitOfDigits(last);
    }
  }

  lemma {:induction false} NothingToRemove(pieces: seq<string>, u: nat)
    requires forall k :: 0 <= k < |pieces| ==> pieces[k] != ""
    ensures RemoveEmpty(pieces, u) == pieces
    decreases |pieces| - u
  {
    if u < |pieces| {
      NothingToRemove(pieces, u + 1);
    }
  }

  lemma {:induction false} DecimalsNotEmpty(ns: seq<nat>)
    ensures forall k :: 0 <= k < |ns| ==> DecimalList(ns)[k] != ""
  {
    if ns != [] {
      DecimalsNotEmpty(ns[..|ns| - 1]);
    }
  }

  /** The string that encryption makes of its numbers is taken apart into them again. */
  lemma PiecesOfCipher(ns: seq<nat>)
    ensures CipherText(Trim(Spaced(ns)))
    ensures RemoveEmpty(Split(Trim(Spaced(ns))), 0) == DecimalList(ns)
    ensures ns != [] ==> Split(Trim(Spaced(ns))) == DecimalList(ns)
  {
    hide ToDecimal, Joined, CipherText, Spaced;
    if ns == [] {
      NoPieces();
    } else {
      SpacedIsJoined(ns);
      JoinedEnds(ns);
      TrimOfJoined(Joined(ns));
      SplitOfJoined(ns);
      DecimalsNotEmpty(ns);
      NothingToRemove(DecimalList(ns), 0);
    }
  }

  lemma NoPieces()
    ensures Trim(Spaced([])) == "" && CipherText("")
    ensures RemoveEmpty(Split(""), 0) == []
  {
    assert RemoveEmpty([""], 0) == RemoveEmpty([""][..0] + [""][1..], 1);
  }

  // ----- Whole messages -----

  /** A list of chunks: at most three characters each. */
  ghost predicate Chunks(chunks: seq<string>) {
    forall k :: 0 <= k < |chunks| ==> PlainText(chunks[k]) && |chunks[k]| <= 3
  }

  function BlocksOf(chunks: seq<string>): (r: seq<string>)
    requires Chunks(chunks)
    ensures |r| == |chunks| && forall k :: 0 <= k < |r| ==> r[k] == BlockOf(chunks[k])
    ensures AllDigits(r)
  {
    seq(|chunks|, k requires 0 <= k < |chunks| => BlockOf(chunks[k]))
  }

  function Concat(chunks: seq<string>): string {
    if chunks == [] then "" else Concat(chunks[..|chunks| - 1]) + chunks[|chunks| - 1]
  }

  function ChunksOf(m: string): (chunks: seq<string>)
    requires PlainText(m)
    ensures Chunks(chunks)
  {
    if m == "" then [] else [m[..Min3(|m|)]] + ChunksOf(m[Min3(|m|)..])
  }

  lemma {:induction false} ConcatOfChunks(m: string)
    requires PlainText(m)
    ensures Concat(ChunksOf(m)) == m
    decreases |m|
  {
    if m != "" {
      hide Concat;
      var first, rest := m[..Min3(|m|)], m[Min3(|m|)..];
      ConcatOfChunks(rest);
      ConcatFront(first, ChunksOf(rest));
      assert first + rest == m;
    }
  }

  lemma {:induction false} BlocksOfChunks(m: string)
    requires PlainText(m)
    ensures BlocksOf(ChunksOf(m)) == Blocks(m)
    decreases |m|
  {
    if m != "" {
      hide BlockOf, Digits;
      var first, rest := m[..Min3(|m|)], m[Min3(|m|)..];
      BlocksOfChunks(rest);
    }
  }

  lemma {:induction false} ConcatFront(first: string, more: seq<string>)
    ensures Concat([first] + more) == first + Concat(more)
    decreases |more|
  {
    var chunks := [first] + more;
    if more == [] {
      assert chunks[..0] == [];
      assert chunks[|chunks| - 1] == first;
    } else {
      ConcatFront(first, more[..|more| - 1]);
      assert chunks[..|chunks| - 1] == [first] + more[..|more| - 1];
    }
  }

  lemma {:induction false} CodesOfConcat(m: string, c: string)
    requires PlainText(m) && PlainText(c)
    ensures PlainText(m + c) && Codes(m + c) == Codes(m) + Codes(c)
    decreases |c|
  {
    hide LetterCode, Digits;
    if c == "" {
      assert m + c == m;
    } else {
      CodesOfConcat(m, c[..|c| - 1]);
      assert (m + c)[..|m + c| - 1] == m + c[..|c| - 1];
    }
  }

  /** Decrypting the encrypted blocks of some chunks gives the codes of their text. */
  lemma {:induction false} BlocksDecrypt(chunks: seq<string>, p: TablePrime, q: TablePrime, n: nat, e: nat, d: nat)
    requires Chunks(chunks) && KeysFor(p, q, n, e, d)
    ensures n > 0 && PlainText(Concat(chunks))
    ensures Decrypted(DecimalList(Encrypted(BlocksOf(chunks), e, n)), d, n) == Codes(Concat(chunks))
    decreases |chunks|
  {
    hide Codes, FromDecimal, ToDecimal, ModPow, BlockOf, Inner, Primes, NoSmallFactor, Congruent, Digits;
    EulerPositive(p, q);
    if chunks != [] {
      var last := |chunks| - 1;
      var head, chunk := chunks[..last], chunks[last];
      BlocksDecrypt(head, p, q, n, e, d);
      BlockRoundTrip(chunk, p, q, n, e, d);
      CodesOfConcat(Concat(head), chunk);
      assert BlocksOf(chunks)[..last] == BlocksOf(head);
      var ns, c := Encrypted(BlocksOf(head), e, n), ModPow(FromDecimal(BlockOf(chunk)), e, n);
      assert (ns + [c])[..|ns|] == ns;
      assert (DecimalList(ns) + [ToDecimal(c)])[..|ns|] == DecimalList(ns);
    } else {
      NoCodes();
    }
  }

  lemma NoCodes()
    ensures Codes("") == ""
  {
  }

  lemma {:induction false} LettersOfCodes(m: string)
    requires PlainText(m)
    ensures Letters(Codes(m)) == m
    decreases |m|
  {
    if m != "" {
      hide LetterCode, Letter, Codes, Letters, Digits, PlainText;
      PlainSplit(m);
      LettersOfCodes(m[1..]);
      CodesOfConcat(m[..1], m[1..]);
      CodesOfOne(m[..1]);
      LetterOfCode(m[0]);
    }
  }

  lemma PlainSplit(m: string)
    requires PlainText(m) && m != ""
    ensures PlainText(m[..1]) && PlainText(m[1..]) && m[..1] + m[1..] == m && m[..1][0] == m[0]
    ensures 32 <= m[0] as int <= 126
  {
  }

  lemma CodesOfOne(m: string)
    requires PlainText(m) && |m| == 1
    ensures Codes(m) == LetterCode(m[0])
  {
    assert m[..0] == "";
  }

  lemma LetterOfCode(c: char)
    requires 32 <= c as int <= 126
    ensures Letter(LetterCode(c)) == c
  {
    LetterCodeDigits(c);
    FromDecimalAppend("", LetterCode(c));
    assert "" + LetterCode(c) == LetterCode(c);
  }

  /** rsa_decrypt(rsa_encrypt(m)) is m, for all keys made from two distinct table primes. */
  lemma DecryptInvertsEncrypt(m: string, p: TablePrime, q: TablePrime, n: nat, e: nat, d: nat)
    requires PlainText(m) && KeysFor(p, q, n, e, d)
    ensures n > 0 && CipherText(EncryptText(m, e, n))
    ensures DecryptText(EncryptText(m, e, n), d, n) == m
  {
    hide Codes, Blocks, BlocksOf, DecimalList, Decrypted, Letters, Split, Trim, Spaced, Concat, Primes, Congruent,
      NoSmallFactor, Encrypted, RemoveEmpty, PlainText;
    EulerPositive(p, q);
    ConcatOfChunks(m);
    BlocksOfChunks(m);
    BlocksDecrypt(ChunksOf(m), p, q, n, e, d);
    PiecesOfCipher(Encrypted(Blocks(m), e, n));
    LettersOfCodes(m);
  }
}
