/** The numbers in a cipher text of rsa.php and the text behind its numbers, written out as powers and remainders. */
module RsaNumbers {
  import opened Powers
  import opened NumberTheory
  import opened Decimals
  import opened RsaText
  import opened RsaRoundTrip

  /** The k-th three characters of a message, fewer at its end, as a number: two digits a character, between two
      ones. */
  function Number(m: string, k: nat): nat
    requires PlainText(m) && 3 * k < |m|
  {
    var a := m[3 * k] as int - 30;
    if 3 * k + 1 == |m| then 1000 + a * 10 + 1
    else
      var b := m[3 * k + 1] as int - 30;
      if 3 * k + 2 == |m| then 100000 + a * 1000 + b * 10 + 1
      else
        var c := m[3 * k + 2] as int - 30;
        10000000 + a * 100000 + b * 1000 + c * 10 + 1
  }

  /** The k-th three characters of a message. */
  function Chunk(m: string, k: nat): (chunk: string)
    requires PlainText(m) && 3 * k < |m|
    ensures PlainText(chunk) && 1 <= |chunk| <= 3
  {
    m[3 * k..3 * k + Min3(|m| - 3 * k)]
  }

  // ----- Blocks as numbers -----

  lemma CodeNumber(m: string)
    requires PlainText(m) && m != ""
    ensures PlainText(m[..|m| - 1])
    ensures FromDecimal("1" + Codes(m)) == 100 * FromDecimal("1" + Codes(m[..|m| - 1])) + (m[|m| - 1] as int - 30)
  {
    hide LetterCode, FromDecimal, Codes;
    var last := |m| - 1;
    CodesLast(m);
    LetterCodeDigits(m[last]);
    assert "1" + Codes(m) == ("1" + Codes(m[..last])) + LetterCode(m[last]);
    FromDecimalAppend("1" + Codes(m[..last]), LetterCode(m[last]));
  }

  lemma NoCodesNumber()
    ensures FromDecimal("1" + Codes("")) == 1
  {
    assert "1" + Codes("") == "1";
    assert "1"[..0] == "";
  }

  lemma ChunkNumber(m: string, k: nat)
    requires PlainText(m) && 3 * k < |m|
    ensures FromDecimal(BlockOf(Chunk(m, k))) == Number(m, k)
  {
    hide Codes, FromDecimal;
    var chunk := Chunk(m, k);
    FromDecimalAppend("1" + Codes(chunk), "1");
    NoCodesNumber();
    CodeNumber(chunk);
    if |chunk| == 1 {
      assert chunk[..0] == "";
    } else {
      CodeNumber(chunk[..|chunk| - 1]);
      if |chunk| == 2 {
        assert chunk[..1][..0] == "";
      } else {
        CodeNumber(chunk[..1]);
        assert chunk[..2][..1] == chunk[..1] && chunk[..1][..0] == "";
      }
    }
  }

  // ----- What encryption writes -----

  lemma {:induction false} BlockAt(m: string, k: nat)
    requires PlainText(m) && 3 * k < |m|
    ensures |Blocks(m)| == (|m| + 2) / 3 && Blocks(m)[k] == BlockOf(Chunk(m, k))
    decreases |m|
  {
    hide BlockOf, Digits;
    var rest := m[Min3(|m|)..];
    assert m[..Min3(|m|)] == Chunk(m, 0);
    if k > 0 {
      BlockAt(rest, k - 1);
      assert Chunk(rest, k - 1) == Chunk(m, k);
    } else if rest != "" {
      BlockAt(rest, 0);
    }
  }

  lemma ModPowIs(x: nat, e: nat, n: nat)
    requires n > 0 && (e > 0 || n > 1)
    ensures ModPow(x, e, n) == Pow(x, e) % n
  {
    PowerNonNegative(x, e);
  }

  lemma {:induction false} EncryptedAt(blocks: seq<string>, e: nat, n: nat, k: nat)
    requires n > 0 && AllDigits(blocks) && k < |blocks| && (e > 0 || n > 1)
    ensures |Encrypted(blocks, e, n)| == |blocks|
    ensures Encrypted(blocks, e, n)[k] == Pow(FromDecimal(blocks[k]), e) % n
  {
    hide FromDecimal, ModPow, Pow;
    ModPowIs(FromDecimal(blocks[k]), e, n);
    var last := |blocks| - 1;
    if k < last {
      EncryptedAt(blocks[..last], e, n, k);
    } else if last > 0 {
      EncryptedAt(blocks[..last], e, n, 0);
    }
  }

  lemma {:induction false} DecimalAt(ns: seq<nat>, k: nat)
    requires k < |ns|
    ensures DecimalList(ns)[k] == ToDecimal(ns[k])
  {
    if k < |ns| - 1 {
      DecimalAt(ns[..|ns| - 1], k);
    }
  }

  /** The numbers of a cipher text are the numbers of the message to the power e, modulo n, in order. */
  ghost predicate Ciphers(m: string, e: nat, n: nat, c: string) {
    && n > 0 && PlainText(m) && |Split(c)| == (|m| + 2) / 3
    && forall k :: 0 <= k < |Split(c)| ==>
         Split(c)[k] != "" && Digits(Split(c)[k]) && FromDecimal(Split(c)[k]) == Pow(Number(m, k), e) % n
  }

  /** The k-th number of a cipher text is the number of the k-th three characters to the power e, modulo n. */
  lemma CipherNumber(m: string, e: nat, n: nat, k: nat)
    requires PlainText(m) && 3 * k < |m| && n > 0 && (e > 0 || n > 1)
    ensures var pieces := Split(EncryptText(m, e, n));
      && |pieces| == (|m| + 2) / 3 && pieces[k] != "" && Digits(pieces[k])
      && FromDecimal(pieces[k]) == Pow(Number(m, k), e) % n
  {
    hide FromDecimal, ToDecimal, Blocks, BlockOf, Encrypted, DecimalList, Trim, Spaced, Split, Pow, RemoveEmpty, Digits,
      Number;
    BlockAt(m, k);
    var blocks := Blocks(m);
    ChunkNumber(m, k);
    EncryptedAt(blocks, e, n, k);
    var ns := Encrypted(blocks, e, n);
    PiecesOfCipher(ns);
    DecimalAt(ns, k);
    FromToDecimal(ns[k]);
  }

  lemma CipherNumbers(m: string, e: nat, n: nat)
    requires PlainText(m) && m != "" && n > 0 && (e > 0 || n > 1)
    ensures Ciphers(m, e, n, EncryptText(m, e, n))
  {
    hide FromDecimal, EncryptText, Split, Pow, Digits, Number, PlainText;
    CipherNumber(m, e, n, 0);
    forall k: nat | 3 * k < |m|
      ensures var pieces := Split(EncryptText(m, e, n));
        && |pieces| == (|m| + 2) / 3 && pieces[k] != "" && Digits(pieces[k])
        && FromDecimal(pieces[k]) == Pow(Number(m, k), e) % n
    {
      CipherNumber(m, e, n, k);
    }
  }

  // ----- What decryption reads -----

  /** The pieces that hold a number. */
  function NonEmpty(pieces: seq<string>): (r: seq<string>)
    ensures AllDigits(pieces) ==> AllDigits(r)
    ensures forall k :: 0 <= k < |r| ==> r[k] != ""
  {
    if pieces == [] then []
    else NonEmpty(pieces[..|pieces| - 1]) + if pieces[|pieces| - 1] == "" then [] else [pieces[|pieces| - 1]]
  }

  lemma {:induction false} NonEmptyOfConcat(a: seq<string>, b: seq<string>)
    ensures NonEmpty(a + b) == NonEmpty(a) + NonEmpty(b)
    decreases |b|
  {
    if b == [] {
      assert a + b == a;
    } else {
      NonEmptyOfConcat(a, b[..|b| - 1]);
      assert (a + b)[..|a + b| - 1] == a + b[..|b| - 1];
    }
  }

  lemma EmptyLeftOut(a: seq<string>, b: seq<string>)
    ensures NonEmpty(a + [""] + b) == NonEmpty(a + b)
  {
    NonEmptyOfConcat(a, b);
    NonEmptyOfConcat(a, [""]);
    NonEmptyOfConcat(a + [""], b);
    OnlyEmpty();
    hide NonEmpty;
    assert NonEmpty(a) + [] == NonEmpty(a);
  }

  lemma OnlyEmpty()
    ensures NonEmpty([""]) == []
  {
    assert [""][..0] == [];
  }

  /** The stripping loop, which may leave empty pieces behind, takes no number away. */
  lemma {:induction false} StrippingKeepsNumbers(pieces: seq<string>, u: nat)
    ensures NonEmpty(RemoveEmpty(pieces, u)) == NonEmpty(pieces)
    decreases |pieces| - u
  {
    hide NonEmpty, AllDigits;
    if u < |pieces| {
      if pieces[u] == "" {
        StrippingKeepsNumbers(pieces[..u] + pieces[u + 1..], u + 1);
        EmptyLeftOut(pieces[..u], pieces[u + 1..]);
        assert pieces == pieces[..u] + [""] + pieces[u + 1..];
      } else {
        StrippingKeepsNumbers(pieces, u + 1);
      }
    }
  }

  /** An empty piece that is left behind decrypts to nothing. */
  lemma EmptyDecrypts(d: nat, n: nat)
    requires n > 0
    ensures Inner(ToDecimal(ModPow(FromDecimal(""), d, n))) == ""
  {
    hide ToDecimal, Pow;
    if d > 0 {
      PowerOfZero(d);
    }
    OneDigit(if d > 0 then 0 else 1);
  }

  lemma PowerOfZero(d: nat)
    requires d > 0
    ensures Pow(0, d) == 0
  {
  }

  lemma OneDigit(n: nat)
    requires n < 10
    ensures |ToDecimal(n)| == 1
  {
  }

  lemma {:induction false} OnlyNumbersDecrypt(pieces: seq<string>, d: nat, n: nat)
    requires n > 0 && AllDigits(pieces)
    ensures Decrypted(pieces, d, n) == Decrypted(NonEmpty(pieces), d, n)
  {
    hide FromDecimal, ToDecimal, ModPow, Inner;
    if pieces != [] {
      var last := |pieces| - 1;
      OnlyNumbersDecrypt(pieces[..last], d, n);
      EmptyDecrypts(d, n);
      if pieces[last] != "" {
        assert NonEmpty(pieces)[..|NonEmpty(pieces)| - 1] == NonEmpty(pieces[..last]);
      } else {
        assert NonEmpty(pieces) == NonEmpty(pieces[..last])
          && Decrypted(pieces, d, n) == Decrypted(pieces[..last], d, n) + "";
      }
    }
  }

  /** Each number to the power d, modulo n, in decimal without its first and last digit. */
  ghost function PowerDigits(numbers: seq<string>, d: nat, n: nat): (s: string)
    requires n > 0 && AllDigits(numbers)
    ensures Digits(s)
  {
    if numbers == [] then ""
    else
      var last := |numbers| - 1;
      PowerNonNegative(FromDecimal(numbers[last]), d);
      PowerDigits(numbers[..last], d, n) + Inner(ToDecimal(Pow(FromDecimal(numbers[last]), d) % n))
  }

  lemma {:induction false} PowersDecrypt(pieces: seq<string>, d: nat, n: nat)
    requires n > 0 && (d > 0 || n > 1) && AllDigits(pieces)
    ensures Decrypted(pieces, d, n) == PowerDigits(pieces, d, n)
  {
    hide FromDecimal, ToDecimal, ModPow, Pow, Inner, Digits;
    if pieces != [] {
      PowersDecrypt(pieces[..|pieces| - 1], d, n);
      ModPowIs(FromDecimal(pieces[|pieces| - 1]), d, n);
    }
  }

  /** What a cipher text decrypts to is spelt by the powers of its numbers, whatever blanks stand between them. */
  lemma DecryptedPowers(c: string, d: nat, n: nat)
    requires n > 0 && (d > 0 || n > 1) && CipherText(c)
    ensures AllDigits(Split(c)) && DecryptText(c, d, n) == Letters(PowerDigits(NonEmpty(Split(c)), d, n))
  {
    hide FromDecimal, ToDecimal, Inner, Pow, Digits, Split, NonEmpty, RemoveEmpty, Decrypted, Letters, PowerDigits;
    SplitGivesDigits(c);
    StrippingKeepsNumbers(Split(c), 0);
    OnlyNumbersDecrypt(RemoveEmpty(Split(c), 0), d, n);
    PowersDecrypt(NonEmpty(Split(c)), d, n);
  }

  /** The text of the first k pieces, when each is the power of the number of its three characters. */
  lemma {:induction false} NumbersDecrypt(pieces: seq<string>, d: nat, n: nat, m: string, k: nat)
    requires n > 0 && (d > 0 || n > 1) && AllDigits(pieces) && PlainText(m)
    requires |pieces| == (|m| + 2) / 3 && k <= |pieces|
    requires forall j :: 0 <= j < |pieces| ==> Pow(FromDecimal(pieces[j]), d) % n == Number(m, j)
    ensures Decrypted(pieces[..k], d, n) == Codes(if 3 * k <= |m| then m[..3 * k] else m)
  {
    hide FromDecimal, ToDecimal, BlockOf, Inner, Number, Pow, ModPow, Codes, Digits;
    if k == 0 {
      NoCodes();
      assert m[..0] == "";
    } else {
      NumbersDecrypt(pieces, d, n, m, k - 1);
      var front, chunk := m[..3 * (k - 1)], Chunk(m, k - 1);
      assert pieces[..k][..k - 1] == pieces[..k - 1];
      ChunkNumber(m, k - 1);
      ModPowIs(FromDecimal(pieces[k - 1]), d, n);
      BlockDigits(chunk);
      CodesOfConcat(front, chunk);
      var text := if 3 * k <= |m| then m[..3 * k] else m;
      assert front + chunk == text;
      calc {
        Decrypted(pieces[..k], d, n);
        Decrypted(pieces[..k - 1], d, n) + Inner(ToDecimal(ModPow(FromDecimal(pieces[k - 1]), d, n)));
        Codes(front) + Codes(chunk);
        Codes(text);
      }
    }
  }

  lemma BlockDigits(chunk: string)
    requires PlainText(chunk)
    ensures Inner(ToDecimal(FromDecimal(BlockOf(chunk)))) == Codes(chunk)
  {
    hide FromDecimal, ToDecimal, Codes;
    ToFromDecimal(BlockOf(chunk));
  }

  /** The numbers of a cipher text, raised to the power d modulo n, are the numbers of a message. */
  ghost predicate Deciphers(c: string, d: nat, n: nat, m: string) {
    && n > 0 && PlainText(m) && AllDigits(Split(c)) && |NonEmpty(Split(c))| == (|m| + 2) / 3
    && forall k :: 0 <= k < |NonEmpty(Split(c))| ==> Pow(FromDecimal(NonEmpty(Split(c))[k]), d) % n == Number(m, k)
  }

  /** Then it decrypts to that message, whatever blanks stand between its numbers. */
  lemma DecryptedNumbers(c: string, d: nat, n: nat, m: string)
    requires Deciphers(c, d, n, m) && (d > 0 || n > 1) && CipherText(c)
    ensures DecryptText(c, d, n) == m
  {
    hide FromDecimal, ToDecimal, Inner, Number, Pow, Codes, Digits, Split, NonEmpty, RemoveEmpty, Decrypted, Letters;
    var pieces := NonEmpty(Split(c));
    StrippingKeepsNumbers(Split(c), 0);
    OnlyNumbersDecrypt(RemoveEmpty(Split(c), 0), d, n);
    NumbersDecrypt(pieces, d, n, m, |pieces|);
    assert pieces[..|pieces|] == pieces;
    assert 3 * |pieces| <= |m| ==> m[..3 * |pieces|] == m;
    LettersOfCodes(m);
  }
}
