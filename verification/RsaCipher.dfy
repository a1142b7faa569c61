/** rsa_encrypt and rsa_decrypt with their loops (rsa.php). */
module RsaCipher {
  import opened Powers
  import opened NumberTheory
  import opened PrimeTable
  import opened RsaKeys
  import opened Decimals
  import opened RsaText
  import opened RsaRoundTrip
  import opened RsaNumbers

  /** The inner loop of rsa_encrypt. */
  method EncodeBlock(m: string, i: nat) returns (block: string)
    requires PlainText(m) && i < |m|
    ensures PlainText(m[i..i + Min3(|m| - i)]) && block == BlockOf(m[i..i + Min3(|m| - i)])
  {
    hide LetterCode, Digits;
    var tmpasci := "1";
    assert m[i..i] == "";
    for h := 0 to 3
      invariant i + h <= |m| && PlainText(m[i..i + h]) && tmpasci == "1" + Codes(m[i..i + h])
    {
      if i + h < |m| {
        CodesStep(m, i, h);
        tmpasci := tmpasci + LetterCode(m[i + h]);
      } else {
        return tmpasci + "1";
      }
    }
    block := tmpasci + "1";
  }

  /** Each block as a number, raised to the power, behind one another. */
  method EncryptBlocks(asci: seq<string>, e: nat, n: nat) returns (coded: string)
    requires n > 0 && forall k :: 0 <= k < |asci| ==> Digits(asci[k])
    ensures coded == Spaced(Encrypted(asci, e, n))
  {
    hide ToDecimal, FromDecimal, Pow, Digits;
    var numbers: seq<nat> := [];
    coded := "";
    for k := 0 to |asci|
      invariant numbers == Encrypted(asci[..k], e, n) && coded == Spaced(numbers)
    {
      var resultmod := PowMod(FromDecimal(asci[k]), e, n);
      assert asci[..k + 1][..k] == asci[..k];
      assert (numbers + [resultmod])[..|numbers|] == numbers;
      numbers := numbers + [resultmod];
      coded := coded + (ToDecimal(resultmod) + " ");
    }
    assert asci[..|asci|] == asci;
  }

  /** rsa_encrypt (rsa.php). */
  method RsaEncrypt(m: string, e: nat, n: nat) returns (coded: string)
    requires n > 0 && PlainText(m)
    ensures coded == EncryptText(m, e, n)
    ensures m != "" && (e > 0 || n > 1) ==> Ciphers(m, e, n, coded)
  {
    hide ToDecimal, FromDecimal, Pow, Trim, PlainText, Digits, BlockOf, Min3, Rest, Ciphers, Split, Spaced, Encrypted;
    var asci: seq<string> := [];
    var i := 0;
    RestFromStart(m);
    while i < |m|
      invariant asci + Blocks(Rest(m, i)) == Blocks(m)
      decreases |m| - i
    {
      var block := EncodeBlock(m, i);
      BlockStep(m, i);
      asci := asci + [block];
      i := i + 3;
    }
    RestAtEnd(m, i);
    assert asci + [] == asci;
    coded := EncryptBlocks(asci, e, n);
    coded := Trim(coded);
    if m != "" && (e > 0 || n > 1) {
      CipherNumbers(m, e, n);
    }
  }

  /** The last loop of rsa_decrypt. */
  method DecodeLetters(s: string) returns (resultd: string)
    requires Digits(s)
    ensures resultd == Letters(s)
  {
    hide FromDecimal, Letter;
    resultd := "";
    var u := 0;
    while u < |s|
      invariant resultd + Letters(if u <= |s| then s[u..] else "") == Letters(s)
      decreases |s| - u
    {
      var code := if u + 2 <= |s| then s[u..u + 2] else s[u..];
      assert u + 2 <= |s| ==> s[u..][..2] == code && s[u..][2..] == s[u + 2..];
      resultd := resultd + [Letter(code)];
      u := u + 2;
    }
  }

  /** rsa_decrypt (rsa.php). Where the original leaves its result unset, this returns "". */
  method RsaDecrypt(c: string, d: nat, n: nat) returns (resultd: string)
    requires n > 0 && CipherText(c)
    ensures resultd == DecryptText(c, d, n)
    ensures AllDigits(Split(c))
    ensures d > 0 || n > 1 ==> resultd == Letters(PowerDigits(NonEmpty(Split(c)), d, n))
    ensures d > 0 || n > 1 ==> forall m :: Deciphers(c, d, n, m) ==> resultd == m
  {
    hide ToDecimal, FromDecimal, Pow, Digits, CipherText, Split, Inner, Letter;
    SplitGivesDigits(c);
    var decryptarray := Split(c);
    var u := 0;
    while u < |decryptarray|
      invariant RemoveEmpty(Split(c), 0) == RemoveEmpty(decryptarray, u) && AllDigits(decryptarray)
      decreases |decryptarray| - u
    {
      if decryptarray[u] == "" {
        decryptarray := decryptarray[..u] + decryptarray[u + 1..];
      }
      u := u + 1;
    }
    var deencrypt := "";
    for k := 0 to |decryptarray|
      invariant AllDigits(decryptarray[..k]) && deencrypt == Decrypted(decryptarray[..k], d, n)
    {
      var resultmod := PowMod(FromDecimal(decryptarray[k]), d, n);
      assert decryptarray[..k + 1][..k] == decryptarray[..k];
      deencrypt := deencrypt + Inner(ToDecimal(resultmod));
    }
    assert decryptarray[..|decryptarray|] == decryptarray;
    resultd := DecodeLetters(deencrypt);
    hide *;
    if d > 0 || n > 1 {
      DecryptedPowers(c, d, n);
      forall m | Deciphers(c, d, n, m)
        ensures resultd == m
      {
        DecryptedNumbers(c, d, n, m);
      }
    }
  }

  /** The three public operations of rsa.php one after the other. */
  method KeysThenMessage(p: TablePrime, q: TablePrime, start: nat, m: string) returns (decoded: string)
    requires p != q && start < |Primes()| && PlainText(m)
    ensures decoded == m
  {
    hide Primes, EncryptText, DecryptText, Congruent, NoSmallFactor, PlainText;
    var n, e, d := GenerateKeys(p, q, start);
    DecryptInvertsEncrypt(m, p, q, n, e, d);
    var encoded := RsaEncrypt(m, e, n);
    decoded := RsaDecrypt(encoded, d, n);
  }
}
