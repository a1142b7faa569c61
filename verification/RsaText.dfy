/** Encryption and decryption of text in rsa.php: three characters to a block, blocks to numbers,
    numbers to a string of decimals. */
module RsaText {
  import opened Powers
  import opened NumberTheory
  import opened PrimeTable
  import opened RsaKeys
  import opened Decimals

  // ----- Encryption -----

  /** The characters that the original asks plaintext to consist of. */
  ghost predicate PlainText(m: string) {
    forall i :: 0 <= i < |m| ==> 32 <= m[i] as int <= 126
  }

  /** A character's code less 30, in at least two digits. */
  function LetterCode(c: char): (s: string)
    requires 32 <= c as int <= 126
    ensures Digits(s) && |s| == 2
  {
    var code := c as int - 30;
    var tmpstr := ToDecimal(code);
    assert code >= 10 ==> ToDecimal(code / 10) == [Digit(code / 10)];
    if |tmpstr| < 2 then "0" + tmpstr else tmpstr
  }

  function Codes(m: string): (s: string)
    requires PlainText(m)
    ensures Digits(s)
  {
    if m == "" then "" else Codes(m[..|m| - 1]) + LetterCode(m[|m| - 1])
  }

  function BlockOf(chunk: string): (s: string)
    requires PlainText(chunk)
    ensures Digits(s)
  {
    "1" + Codes(chunk) + "1"
  }

  function Min3(n: nat): nat {
    if n < 3 then n else 3
  }

  function Blocks(m: string): (r: seq<string>)
    requires PlainText(m)
    ensures forall k :: 0 <= k < |r| ==> Digits(r[k])
  {
    if m == "" then [] else [BlockOf(m[..Min3(|m|)])] + Blocks(m[Min3(|m|)..])
  }

  /** What powmod returns. */
  function ModPow(base: nat, exp: nat, n: nat): nat
    requires n > 0
  {
    if exp == 0 then 1 else Pow(base, exp) % n
  }

  function Encrypted(blocks: seq<string>, e: nat, n: nat): seq<nat>
    requires n > 0 && forall k :: 0 <= k < |blocks| ==> Digits(blocks[k])
  {
    if blocks == [] then []
    else Encrypted(blocks[..|blocks| - 1], e, n) + [ModPow(FromDecimal(blocks[|blocks| - 1]), e, n)]
  }

  /** The numbers in decimal, each followed by a space. */
  function Spaced(ns: seq<nat>): string {
    if ns == [] then "" else Spaced(ns[..|ns| - 1]) + (ToDecimal(ns[|ns| - 1]) + " ")
  }

  predicate IsBlank(c: char) {
    c == ' ' || c == '\t' || c == '\n' || c == '\r' || c == '\0' || c as int == 11
  }

  function TrimStart(s: string): string {
    if s != "" && IsBlank(s[0]) then TrimStart(s[1..]) else s
  }

  function TrimEnd(s: string): string {
    if s != "" && IsBlank(s[|s| - 1]) then TrimEnd(s[..|s| - 1]) else s
  }

  function Trim(s: string): string {
    TrimEnd(TrimStart(s))
  }

  /** rsa_encrypt as a function of its arguments. */
  function EncryptText(m: string, e: nat, n: nat): string
    requires n > 0 && PlainText(m)
  {
    Trim(Spaced(Encrypted(Blocks(m), e, n)))
  }

  /** What is left of the message from character i on. */
  function Rest(m: string, i: nat): (r: string)
    requires PlainText(m)
    ensures PlainText(r)
  {
    if i < |m| then m[i..] else ""
  }

  lemma BlockStep(m: string, i: nat)
    requires PlainText(m) && i < |m|
    ensures PlainText(m[i..i + Min3(|m| - i)])
    ensures Blocks(Rest(m, i)) == [BlockOf(m[i..i + Min3(|m| - i)])] + Blocks(Rest(m, i + 3))
  {
    var rest := m[i..];
    assert rest[..Min3(|rest|)] == m[i..i + Min3(|m| - i)];
    assert rest[Min3(|rest|)..] == Rest(m, i + 3);
  }

  lemma CodesStep(m: string, i: nat, h: nat)
    requires PlainText(m) && i + h < |m|
    ensures PlainText(m[i..i + h]) && PlainText(m[i..i + h + 1])
    ensures Codes(m[i..i + h + 1]) == Codes(m[i..i + h]) + LetterCode(m[i + h])
  {
    assert m[i..i + h + 1][..h] == m[i..i + h];
  }

  lemma RestFromStart(m: string)
    requires PlainText(m)
    ensures Rest(m, 0) == m
  {
  }

  lemma RestAtEnd(m: string, i: nat)
    requires PlainText(m) && i >= |m|
    ensures Blocks(Rest(m, i)) == []
  {
  }

  // ----- Decryption -----

  /** `split(" ", $s)`. */
  function Split(s: string): (r: seq<string>)
    ensures |r| > 0
  {
    if s == "" then [""]
    else
      var rest := Split(s[1..]);
      if s[0] == ' ' then [""] + rest else [[s[0]] + rest[0]] + rest[1..]
  }

  /** A cipher text: digits and spaces. */
  ghost predicate CipherText(c: string) {
    forall i :: 0 <= i < |c| ==> IsDigit(c[i]) || c[i] == ' '
  }

  ghost predicate AllDigits(pieces: seq<string>) {
    forall k :: 0 <= k < |pieces| ==> Digits(pieces[k])
  }

  lemma {:induction false} SplitGivesDigits(c: string)
    requires CipherText(c)
    ensures AllDigits(Split(c))
  {
    if c != "" {
      SplitGivesDigits(c[1..]);
    }
  }

  /** The loop that strips empty pieces: after a removal it skips the piece that moves up. */
  function RemoveEmpty(pieces: seq<string>, u: nat): (r: seq<string>)
    ensures AllDigits(pieces) ==> AllDigits(r)
    decreases |pieces| - u
  {
    if u >= |pieces| then pieces
    else if pieces[u] == "" then RemoveEmpty(pieces[..u] + pieces[u + 1..], u + 1)
    else RemoveEmpty(pieces, u + 1)
  }

  /** A decrypted number without its first and last digit. */
  function Inner(s: string): string {
    if |s| >= 2 then s[1..|s| - 1] else ""
  }

  function Decrypted(pieces: seq<string>, d: nat, n: nat): (s: string)
    requires n > 0 && AllDigits(pieces)
    ensures Digits(s)
  {
    if pieces == [] then ""
    else
      Decrypted(pieces[..|pieces| - 1], d, n)
        + Inner(ToDecimal(ModPow(FromDecimal(pieces[|pieces| - 1]), d, n)))
  }

  /** The characters of the two-digit codes from position u on. */
  function Letters(s: string): string
    requires Digits(s)
  {
    if s == "" then ""
    else if |s| == 1 then [Letter(s)]
    else [Letter(s[..2])] + Letters(s[2..])
  }

  function Letter(s: string): char
    requires Digits(s) && |s| <= 2
  {
    CodeBound(s);
    (FromDecimal(s) + 30) as char
  }

  lemma CodeBound(s: string)
    requires Digits(s) && |s| <= 2
    ensures FromDecimal(s) < 100
  {
    if |s| == 2 {
      assert FromDecimal(s[..1]) == 10 * FromDecimal("") + DigitValue(s[0]);
    }
  }

  /** rsa_decrypt as a function of its arguments. */
  function DecryptText(c: string, d: nat, n: nat): string
    requires n > 0 && CipherText(c)
  {
    SplitGivesDigits(c);
    Letters(Decrypted(RemoveEmpty(Split(c), 0), d, n))
  }
}
