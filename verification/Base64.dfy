/** The Base64 reader of deflate.js (RFC 4648, section 4). */
module Base64 {
  import opened Octets
  import opened Powers
  import opened Results

  // ----- The alphabet -----

  /** The character of a six-bit value, or the padding for 64. */
  function Letter(index: nat): char
    requires index <= 64
  {
    if index < 26 then 'A' + index as char
    else if index < 52 then 'a' + (index - 26) as char
    else if index < 62 then '0' + (index - 52) as char
    else if index == 62 then '+'
    else if index == 63 then '/'
    else '='
  }

  /** The place of a character in the alphabet, or -1. */
  function IndexOf(ch: char): (index: int)
    ensures -1 <= index <= 64
  {
    if 'A' <= ch <= 'Z' then ch as int - 'A' as int
    else if 'a' <= ch <= 'z' then ch as int - 'a' as int + 26
    else if '0' <= ch <= '9' then ch as int - '0' as int + 52
    else if ch == '+' then 62
    else if ch == '/' then 63
    else if ch == '=' then 64
    else -1
  }

  lemma LetterIndex(index: nat)
    requires index <= 64
    ensures IndexOf(Letter(index)) == index && Letter(index) > ' '
  {
  }

  const ALPHABET := "ABCDEFGHIJKLMNOPQRSTUVWXYZ" + "abcdefghijklmnopqrstuvwxyz" + "0123456789+/"

  /** The letters are those of RFC 4648, table 1. */
  lemma LettersAreAlphabet(index: nat)
    requires index < 64
    ensures |ALPHABET| == 64 && Letter(index) == ALPHABET[index]
  {
    if index < 26 {
      CapitalsAreAlphabet(index);
    } else if index < 52 {
      SmallLettersAreAlphabet(index);
    }
  }

  lemma CapitalsAreAlphabet(index: nat)
    requires index < 26
    ensures 'A' + index as char == ALPHABET[index]
  {
    var capitals := "ABCDEFGHIJKLMNOPQRSTUVWXYZ";
    assert capitals[index] == 'A' + index as char;
  }

  lemma SmallLettersAreAlphabet(index: nat)
    requires 26 <= index < 52
    ensures 'a' + (index - 26) as char == ALPHABET[index]
  {
    var smalls := "abcdefghijklmnopqrstuvwxyz";
    assert smalls[index - 26] == 'a' + (index - 26) as char;
  }

  // ----- Encoding -----

  function First(d0: byte): (i: nat)
    ensures i < 64
  {
    d0 / 4
  }

  function Second(d0: byte, d1: byte): (i: nat)
    ensures i < 64
  {
    d0 % 4 * 16 + d1 / 16
  }

  function Third(d1: byte, d2: byte): (i: nat)
    ensures i < 64
  {
    d1 % 16 * 4 + d2 / 64
  }

  function Fourth(d2: byte): (i: nat)
    ensures i < 64
  {
    d2 % 64
  }

  /** Three bytes in four letters; a shorter group is padded. */
  function Encoded(data: seq<byte>): string {
    if data == [] then []
    else if |data| == 1 then [Letter(First(data[0])), Letter(Second(data[0], 0)), '=', '=']
    else if |data| == 2 then [Letter(First(data[0])), Letter(Second(data[0], data[1])), Letter(Third(data[1], 0)), '=']
    else
      [Letter(First(data[0])), Letter(Second(data[0], data[1])), Letter(Third(data[1], data[2])),
       Letter(Fourth(data[2]))]
        + Encoded(data[3..])
  }

  /** The bytes of "foobar" (RFC 4648, section 10). */
  lemma EncodedFoobar()
    ensures Encoded([102]) == "Zg==" && Encoded([102, 111]) == "Zm8=" && Encoded([102, 111, 111]) == "Zm9v"
    ensures Encoded([102, 111, 111, 98, 97, 114]) == "Zm9vYmFy"
  {
    var data: seq<byte> := [102, 111, 111, 98, 97, 114];
    assert data[3..] == [98, 97, 114] && data[3..][3..] == [];
  }

  /** The characters that the reader does not skip. */
  function Significant(text: string): string {
    if text == [] then [] else (if text[0] > ' ' then [text[0]] else []) + Significant(text[1..])
  }

  // ----- What the reader computes, on 32-bit signed words -----

  function Wrap(x: int): int {
    (x + 0x8000_0000) % 0x1_0000_0000 - 0x8000_0000
  }

  /** `>>`, whose shift count is taken modulo 32. */
  function ShiftRight(x: int, n: int): int {
    x / Pow2(n % 32)
  }

  datatype State = State(pos: nat, bits: int, bitsLength: int)

  /** A group in progress: characters counted in, and how many of them are padding. */
  datatype Group = Group(pos: nat, bits: int, count: nat, pads: nat)

  function ReadGroup(text: string, g: Group): Result<Group>
    requires g.pos <= |text|
    decreases |text| - g.pos
  {
    if g.pos == |text| || g.count >= 4 then Ok(g)
    else if text[g.pos] <= ' ' then ReadGroup(text, g.(pos := g.pos + 1))
    else
      var index := IndexOf(text[g.pos]);
      if index < 0 then Throws(InvalidCharacter)
      else if index < 64 && g.pads > 0 then Throws(InvalidEncoding)
      else
        var pads := g.pads + if index == 64 then 1 else 0;
        ReadGroup(text, Group(g.pos + 1, Wrap(g.bits * 64) + index % 64, g.count + 1, pads))
  }

  /** The bits that padding takes off a group. */
  function TailBits(pads: nat): nat {
    if pads == 1 then 8 else if pads == 2 then 16 else 6 * pads
  }

  /** The next byte, or nothing at the end. */
  function NextByte(text: string, s: State): Result<(Option<byte>, State)>
    requires s.pos <= |text|
  {
    if s.bitsLength == 0 then
      match ReadGroup(text, Group(s.pos, s.bits, 0, 0))
      case Throws(e) => Throws(e)
      case Ok(g) =>
        if g.pos >= |text| && g.count == 0 then Ok((None, State(g.pos, g.bits, 0)))
        else if g.pos >= |text| && g.count < 4 then Throws(InvalidEncoding)
        else Ok(TakeByte(State(g.pos, ShiftRight(g.bits, TailBits(g.pads)), 6 * g.count - TailBits(g.pads))))
    else Ok(TakeByte(s))
  }

  function TakeByte(s: State): (Option<byte>, State) {
    var bitsLength := s.bitsLength - 8;
    (Some(ShiftRight(s.bits, bitsLength) % 256), s.(bitsLength := bitsLength))
  }

  // ----- The reader -----

  class Base64Reader {
    const base64: string
    var position: nat
    var bits: int
    var bitsLength: int

    constructor (base64: string)
      ensures this.base64 == base64 && Now() == State(0, 0, 0)
    {
      this.base64, position, bits, bitsLength := base64, 0, 0, 0;
    }

    ghost function Now(): State
      reads this
    {
      State(position, bits, bitsLength)
    }

    /** The next byte, or -1. */
    method ReadByte() returns (r: Result<int>)
      requires position <= |base64|
      modifies this
      ensures match NextByte(base64, old(Now()))
        case Throws(e) => r == Throws(e)
        case Ok((b, s)) => r == Ok(if b.Some? then b.value else -1) && Now() == s && position <= |base64|
    {
      hide Wrap, ShiftRight, IndexOf;
      if bitsLength == 0 {
        var tailBits, count := 0, 0;
        while position < |base64| && bitsLength < 24
          invariant position <= |base64| && bitsLength == 6 * count && count <= 4 && tailBits % 6 == 0 && tailBits >= 0
          invariant ReadGroup(base64, Group(position, bits, count, tailBits / 6))
                 == ReadGroup(base64, Group(old(position), old(bits), 0, 0))
        {
          var ch := base64[position];
          position := position + 1;
          if ch > ' ' {
            var index := IndexOf(ch);
            if index < 0 {
              return Throws(InvalidCharacter);
            }
            if index < 64 {
              if tailBits > 0 {
                return Throws(InvalidEncoding);
              }
              bits := Wrap(bits * 64) + index;
            } else {
              // the test for misplaced padding compares a misspelled name, so it never fails
              bits := Wrap(bits * 64);
              tailBits := tailBits + 6;
            }
            bitsLength := bitsLength + 6;
            count := count + 1;
          }
        }
        if position >= |base64| {
          if bitsLength == 0 {
            return Ok(-1);
          } else if bitsLength < 24 {
            return Throws(InvalidEncoding);
          }
        }
        if tailBits == 6 {
          tailBits := 8;
        } else if tailBits == 12 {
          tailBits := 16;
        }
        bits := ShiftRight(bits, tailBits);
        bitsLength := bitsLength - tailBits;
      }
      bitsLength := bitsLength - 8;
      r := Ok(ShiftRight(bits, bitsLength) % 256);
    }
  }

  // ----- Round trip -----

  lemma Mod1(b: int, i: nat)
    requires i < 64
    ensures (Wrap(b * 64) + i) % 64 == i
  {
    var t := (b * 64 + 0x8000_0000) / 0x1_0000_0000;
    assert Wrap(b * 64) == 64 * (b - 0x400_0000 * t);
  }

  lemma Mod2(b: int, i: nat)
    requires i < 64
    ensures (Wrap(b * 64) + i) % 4096 == b % 64 * 64 + i
  {
    var t, q := (b * 64 + 0x8000_0000) / 0x1_0000_0000, b / 64;
    assert Wrap(b * 64) == 4096 * (q - 0x10_0000 * t) + b % 64 * 64;
    DivModUnique(Wrap(b * 64) + i, 4096, q - 0x10_0000 * t, b % 64 * 64 + i);
  }

  lemma Mod3(b: int, i: nat)
    requires i < 64
    ensures (Wrap(b * 64) + i) % 262144 == b % 4096 * 64 + i
  {
    var t, q := (b * 64 + 0x8000_0000) / 0x1_0000_0000, b / 4096;
    assert Wrap(b * 64) == 262144 * (q - 0x4000 * t) + b % 4096 * 64;
    DivModUnique(Wrap(b * 64) + i, 262144, q - 0x4000 * t, b % 4096 * 64 + i);
  }

  lemma Mod4(b: int, i: nat)
    requires i < 64
    ensures (Wrap(b * 64) + i) % 0x100_0000 == b % 262144 * 64 + i
  {
    var t, q := (b * 64 + 0x8000_0000) / 0x1_0000_0000, b / 262144;
    assert Wrap(b * 64) == 0x100_0000 * (q - 0x100 * t) + b % 262144 * 64;
    DivModUnique(Wrap(b * 64) + i, 0x100_0000, q - 0x100 * t, b % 262144 * 64 + i);
  }

  /** The value of four letters. */
  function Value(i0: nat, i1: nat, i2: nat, i3: nat): nat {
    ((i0 * 64 + i1) * 64 + i2) * 64 + i3
  }

  lemma FourLetterBits(b: int, i0: nat, i1: nat, i2: nat, i3: nat)
    requires i0 < 64 && i1 < 64 && i2 < 64 && i3 < 64
    ensures var b1 := Wrap(b * 64) + i0; var b2 := Wrap(b1 * 64) + i1; var b3 := Wrap(b2 * 64) + i2;
            (Wrap(b3 * 64) + i3) % 0x100_0000 == Value(i0, i1, i2, i3)
  {
    hide Wrap;
    var b1 := Wrap(b * 64) + i0;
    var b2 := Wrap(b1 * 64) + i1;
    var b3 := Wrap(b2 * 64) + i2;
    Mod1(b, i0);
    Mod2(b1, i1);
    Mod3(b2, i2);
    Mod4(b3, i3);
  }

  // ----- What the reader makes of a text -----

  /** A character that the reader throws at, after so much padding in its group. */
  predicate Refused(ch: char, pads: nat) {
    IndexOf(ch) < 0 || (ch != '=' && pads > 0)
  }

  /** The next n characters belong to one group: letters, then padding. */
  predicate Fits(s: string, pads: nat, n: nat)
    decreases n
  {
    n == 0 || (s != [] && !Refused(s[0], pads) && Fits(s[1..], pads + PadsIn(s, 1), n - 1))
  }

  /** How many of the first n characters are padding. */
  function PadsIn(s: string, n: nat): nat
    decreases n
  {
    if n == 0 || s == [] then 0 else PadsIn(s[1..], n - 1) + if s[0] == '=' then 1 else 0
  }

  /** The word after n more characters. */
  function FedBits(s: string, bits: int, n: nat): int
    decreases n
  {
    if n == 0 || s == [] then bits else FedBits(s[1..], Wrap(bits * 64) + IndexOf(s[0]) % 64, n - 1)
  }

  function Fed(g: Group, pos: nat, ch: char): Group {
    Group(pos, Wrap(g.bits * 64) + IndexOf(ch) % 64, g.count + 1, g.pads + if ch == '=' then 1 else 0)
  }

  lemma PaddingIndex(ch: char)
    ensures IndexOf(ch) == 64 <==> ch == '='
    ensures IndexOf(ch) <= 64
  {
  }

  lemma ReadSkips(text: string, g: Group)
    requires g.pos < |text| && g.count < 4 && text[g.pos] <= ' '
    ensures ReadGroup(text, g) == ReadGroup(text, g.(pos := g.pos + 1))
  {
  }

  lemma ReadFeeds(text: string, g: Group)
    requires g.pos < |text| && g.count < 4 && text[g.pos] > ' '
    ensures var r := ReadGroup(text, g);
            if Refused(text[g.pos], g.pads) then r.Throws?
            else r == ReadGroup(text, Fed(g, g.pos + 1, text[g.pos]))
  {
    PaddingIndex(text[g.pos]);
    hide Wrap, IndexOf;
  }

  lemma SignificantFrom(text: string, p: nat)
    requires p < |text|
    ensures Significant(text[p..]) ==
      (if text[p] > ' ' then [text[p]] else []) + Significant(text[p + 1..])
  {
    assert text[p..][1..] == text[p + 1..];
  }

  /** The next significant character, wherever it is. */
  lemma {:induction false} NextLetter(text: string, g: Group) returns (pos: nat)
    requires g.pos <= |text| && g.count < 4
    ensures pos <= |text|
    ensures var s := Significant(text[g.pos..]); var r := ReadGroup(text, g);
            if s == [] then r == Ok(g.(pos := |text|))
            else if Refused(s[0], g.pads) then r.Throws?
            else r == ReadGroup(text, Fed(g, pos, s[0])) && Significant(text[pos..]) == s[1..]
    decreases |text| - g.pos
  {
    pos := g.pos;
    if g.pos < |text| {
      hide Significant, ReadGroup, Refused, Fed;
      SignificantFrom(text, g.pos);
      if text[g.pos] <= ' ' {
        ReadSkips(text, g);
        pos := NextLetter(text, g.(pos := g.pos + 1));
        assert [] + Significant(text[g.pos + 1..]) == Significant(text[g.pos + 1..]);
      } else {
        ReadFeeds(text, g);
        pos := g.pos + 1;
      }
    }
  }

  /** What is left of a group: it is completed, or refused, or the text ends in it. */
  lemma {:induction false} RestOfGroup(text: string, g: Group, s: string, n: nat)
    requires g.pos <= |text| && g.count + n == 4 && s == Significant(text[g.pos..])
    ensures var r := ReadGroup(text, g);
            if Fits(s, g.pads, n) then
              && r.Ok? && r.value.pos <= |text| && r.value.count == 4 && r.value.pads == g.pads + PadsIn(s, n)
              && r.value.bits == FedBits(s, g.bits, n) && n <= |s| && Significant(text[r.value.pos..]) == s[n..]
            else r.Throws? || (r.value.pos == |text| && r.value.count == g.count + |s| < 4)
    decreases n
  {
    hide Wrap, IndexOf, Significant, Refused;
    if n == 0 {
      GroupDone(text, g);
    } else {
      var pos := NextLetter(text, g);
      if s == [] {
      } else if !Refused(s[0], g.pads) {
        assert PadsIn(s, 1) == (if s[0] == '=' then 1 else 0) + PadsIn(s[1..], 0);
        RestOfGroup(text, Fed(g, pos, s[0]), s[1..], n - 1);
      }
    }
  }

  lemma GroupDone(text: string, g: Group)
    requires g.pos <= |text| && g.count >= 4
    ensures ReadGroup(text, g) == Ok(g)
  {
  }

  // Bytes come off a group from the top.

  lemma Shifts(bits: int)
    ensures ShiftRight(bits, 16) == bits / 0x1_0000 && ShiftRight(bits, 8) == bits / 0x100
            && ShiftRight(bits, 0) == bits
  {
    PowersOfTwo();
  }

  lemma TopByte(bits: int, v: nat)
    requires bits % 0x100_0000 == v
    ensures bits / 0x1_0000 % 256 == v / 0x1_0000
  {
    var q := bits / 0x100_0000;
    assert bits / 0x1_0000 == 0x100 * q + v / 0x1_0000;
  }

  lemma MiddleByte(bits: int, v: nat)
    requires bits % 0x100_0000 == v
    ensures bits / 0x100 % 256 == v / 0x100 % 256
  {
    var q, m := bits / 0x100_0000, v / 0x100;
    assert bits / 0x100 == 0x1_0000 * q + m;
    LowByteOf(q, m);
  }

  lemma LowByteOf(q: int, m: int)
    ensures (0x1_0000 * q + m) % 256 == m % 256
  {
    DivModUnique(0x1_0000 * q + m, 256, 256 * q + m / 256, m % 256);
  }

  lemma BottomByte(bits: int, v: nat)
    requires bits % 0x100_0000 == v
    ensures bits % 256 == v % 256
  {
    var q := bits / 0x100_0000;
    assert bits == 0x100_0000 * q + v;
  }

  lemma Bytes24(bits: int, v: nat)
    requires bits % 0x100_0000 == v
    ensures ShiftRight(bits, 16) % 256 == v / 0x1_0000 && ShiftRight(bits, 8) % 256 == v / 0x100 % 256
            && ShiftRight(bits, 0) % 256 == v % 256
  {
    Shifts(bits);
    TopByte(bits, v);
    MiddleByte(bits, v);
    BottomByte(bits, v);
    hide ShiftRight;
  }

  lemma ShiftsAgain(bits: int)
    ensures bits / 0x100 / 0x100 == bits / 0x1_0000
  {
  }

  lemma Bytes16(bits: int, v: nat)
    requires bits % 0x100_0000 == v
    ensures var b := ShiftRight(bits, 8);
            ShiftRight(b, 8) % 256 == v / 0x1_0000 && ShiftRight(b, 0) % 256 == v / 0x100 % 256
  {
    Shifts(bits);
    Shifts(bits / 0x100);
    ShiftsAgain(bits);
    TopByte(bits, v);
    MiddleByte(bits, v);
    hide ShiftRight;
  }

  lemma Bytes8(bits: int, v: nat)
    requires bits % 0x100_0000 == v
    ensures ShiftRight(ShiftRight(bits, 16), 0) % 256 == v / 0x1_0000
  {
    Shifts(bits);
    Shifts(bits / 0x1_0000);
    TopByte(bits, v);
    hide ShiftRight;
  }

  /** The bytes of a group, fewer by the padding. */
  function GroupBytes(s: string): (data: seq<byte>)
    requires |s| >= 4 && PadsIn(s, 4) <= 2
    ensures var v := GroupValue(s);
            && |data| == 3 - PadsIn(s, 4) && data[0] == v / 0x1_0000
            && (|data| > 1 ==> data[1] == v / 0x100 % 256) && (|data| > 2 ==> data[2] == v % 256)
  {
    var v := GroupValue(s);
    [v / 0x1_0000, v / 0x100 % 256, v % 256][..3 - PadsIn(s, 4)]
  }

  function GroupValue(s: string): (v: nat)
    requires |s| >= 4
    ensures v < 0x100_0000
  {
    Value(IndexOf(s[0]) % 64, IndexOf(s[1]) % 64, IndexOf(s[2]) % 64, IndexOf(s[3]) % 64)
  }

  lemma FitsLength(s: string, pads: nat, n: nat)
    requires Fits(s, pads, n)
    ensures n <= |s|
    decreases n
  {
    hide Refused;
  }

  lemma GroupBits(s: string, bits: int)
    requires |s| >= 4
    ensures FedBits(s, bits, 4) % 0x100_0000 == GroupValue(s)
  {
    var i0, i1, i2, i3 := IndexOf(s[0]) % 64, IndexOf(s[1]) % 64, IndexOf(s[2]) % 64, IndexOf(s[3]) % 64;
    FourLetterBits(bits, i0, i1, i2, i3);
    hide Wrap, IndexOf;
    var b1 := Wrap(bits * 64) + i0;
    var b2 := Wrap(b1 * 64) + i1;
    var b3 := Wrap(b2 * 64) + i2;
    assert FedBits(s[4..], Wrap(b3 * 64) + i3, 0) == Wrap(b3 * 64) + i3;
    assert s[1..][0] == s[1] && s[1..][1..] == s[2..] && s[2..][0] == s[2] && s[2..][1..] == s[3..]
      && s[3..][0] == s[3] && s[3..][1..] == s[4..];
    assert FedBits(s[3..], b3, 1) == FedBits(s[4..], Wrap(b3 * 64) + i3, 0);
    assert FedBits(s[2..], b2, 2) == FedBits(s[3..], b3, 1);
    assert FedBits(s[1..], b1, 3) == FedBits(s[2..], b2, 2);
  }

  /** Reading yields some bytes, one after another, and leads to a state. */
  ghost predicate Gives(text: string, s: State, data: seq<byte>, s': State)
    decreases |data|
  {
    s.pos <= |text| &&
    if data == [] then s == s'
    else
      var r := NextByte(text, s);
      r.Ok? && r.value.0 == Some(data[0]) && Gives(text, r.value.1, data[1..], s')
  }

  /** The reader gives exactly some bytes, and then the end. */
  ghost predicate Reads(text: string, s: State, data: seq<byte>)
    decreases |data|
  {
    s.pos <= |text| &&
    var r := NextByte(text, s);
    if data == [] then r.Ok? && r.value.0.None?
    else r.Ok? && r.value.0 == Some(data[0]) && Reads(text, r.value.1, data[1..])
  }

  /** After at most n bytes there is an end or an exception. */
  ghost predicate EndsWithin(text: string, s: State, n: nat)
    decreases n
  {
    s.pos <= |text| &&
    match NextByte(text, s)
    case Throws(_) => true
    case Ok((b, s')) => b.None? || (n > 0 && EndsWithin(text, s', n - 1))
  }

  lemma {:induction false} GivesThenReads(text: string, s: State, data: seq<byte>, s': State, all: seq<byte>)
    requires Gives(text, s, data, s')
    ensures Reads(text, s, all) <==> data <= all && Reads(text, s', all[|data|..])
    decreases |data|
  {
    hide NextByte;
    if data == [] {
      assert all[0..] == all;
    } else if all != [] && all[0] == data[0] {
      GivesThenReads(text, NextByte(text, s).value.1, data[1..], s', all[1..]);
      assert data == [data[0]] + data[1..] && all == [all[0]] + all[1..];
      if data <= all {
        assert data[1..] <= all[1..] && all[1..][|data| - 1..] == all[|data|..];
      }
    }
  }

  lemma {:induction false} GivesThenEnds(text: string, s: State, data: seq<byte>, s': State, n: nat)
    requires Gives(text, s, data, s')
    ensures EndsWithin(text, s, n) <==> |data| <= n && EndsWithin(text, s', n - |data|)
    decreases |data|
  {
    hide NextByte;
    if data != [] && n > 0 {
      GivesThenEnds(text, NextByte(text, s).value.1, data[1..], s', n - 1);
    }
  }

  /** A whole group with room for bytes gives its bytes. */
  lemma GroupGives(text: string, pos: nat, bits: int, s: string) returns (pos': nat, bits': int)
    requires pos <= |text| && s == Significant(text[pos..]) && Fits(s, 0, 4) && |s| >= 4 && PadsIn(s, 4) <= 2
    ensures Gives(text, State(pos, bits, 0), GroupBytes(s), State(pos', bits', 0))
    ensures pos' <= |text| && Significant(text[pos'..]) == s[4..]
  {
    hide Fits, Significant, ReadGroup, ShiftRight, Wrap, IndexOf, FedBits, PadsIn, GroupValue, GroupBytes;
    RestOfGroup(text, Group(pos, bits, 0, 0), s, 4);
    GroupBits(s, bits);
    var g, v, data := ReadGroup(text, Group(pos, bits, 0, 0)).value, GroupValue(s), GroupBytes(s);
    pos' := g.pos;
    if g.pads == 0 {
      bits' := g.bits;
      Shifts(bits');
      Bytes24(g.bits, v);
      assert Gives(text, State(pos', bits', 0), data[1..][1..][1..], State(pos', bits', 0));
      assert Gives(text, State(pos', bits', 8), data[1..][1..], State(pos', bits', 0));
      assert Gives(text, State(pos', bits', 16), data[1..], State(pos', bits', 0));
    } else if g.pads == 1 {
      bits' := ShiftRight(g.bits, 8);
      Bytes16(g.bits, v);
      assert Gives(text, State(pos', bits', 0), data[1..][1..], State(pos', bits', 0));
      assert Gives(text, State(pos', bits', 8), data[1..], State(pos', bits', 0));
    } else {
      bits' := ShiftRight(g.bits, 16);
      Bytes8(g.bits, v);
      assert Gives(text, State(pos', bits', 0), data[1..], State(pos', bits', 0));
    }
  }

  /** A group that is cut short or refused throws; one with too much padding leaves a negative number of bits. */
  lemma BadGroup(text: string, pos: nat, bits: int, s: string)
    requires pos <= |text| && s == Significant(text[pos..]) && s != []
    ensures !Fits(s, 0, 4) ==> NextByte(text, State(pos, bits, 0)).Throws?
    ensures Fits(s, 0, 4) && PadsIn(s, 4) > 2 ==>
            var r := NextByte(text, State(pos, bits, 0));
            r.Ok? && r.value.0.Some? && r.value.1.pos <= |text| && r.value.1.bitsLength < 0
  {
    hide Fits, Significant, ReadGroup, ShiftRight, PadsIn, FedBits;
    RestOfGroup(text, Group(pos, bits, 0, 0), s, 4);
  }

  lemma NoneLeft(text: string, pos: nat, bits: int)
    requires pos <= |text| && Significant(text[pos..]) == []
    ensures NextByte(text, State(pos, bits, 0)) == Ok((None, State(|text|, bits, 0)))
  {
    hide Significant;
    RestOfGroup(text, Group(pos, bits, 0, 0), [], 4);
    var pos' := NextLetter(text, Group(pos, bits, 0, 0));
  }

  /** With a negative number of bits, bytes come for ever. */
  lemma {:induction false} NegativeNeverEnds(text: string, s: State, n: nat)
    requires s.pos <= |text| && s.bitsLength < 0
    ensures !EndsWithin(text, s, n)
    decreases n
  {
    hide ShiftRight;
    if n > 0 {
      NegativeNeverEnds(text, NextByte(text, s).value.1, n - 1);
    }
  }

  lemma {:induction false} ReadsMeansEnds(text: string, s: State, data: seq<byte>)
    requires Reads(text, s, data)
    ensures EndsWithin(text, s, |data|)
    decreases |data|
  {
    hide NextByte;
    if data != [] {
      ReadsMeansEnds(text, NextByte(text, s).value.1, data[1..]);
    }
  }

  // ----- Which texts are read -----

  /** Whole groups of letters and padding, with at most two paddings each. */
  predicate Accepted(s: string) {
    s == [] || (|s| >= 4 && Fits(s, 0, 4) && PadsIn(s, 4) <= 2 && Accepted(s[4..]))
  }

  function Decoded(s: string): seq<byte>
    requires Accepted(s)
  {
    if s == [] then [] else GroupBytes(s) + Decoded(s[4..])
  }

  /** Some whole group, with only whole groups before it, has more than two paddings. */
  predicate OverPadded(s: string) {
    |s| >= 4 && Fits(s, 0, 4) && (PadsIn(s, 4) > 2 || OverPadded(s[4..]))
  }

  /** A text is read to its end exactly when it is accepted, and then as the bytes of its groups. */
  lemma {:induction false} ReadsIffAccepted(text: string, pos: nat, bits: int, data: seq<byte>)
    requires pos <= |text|
    ensures var s := Significant(text[pos..]);
            Reads(text, State(pos, bits, 0), data) <==> Accepted(s) && data == Decoded(s)
    decreases |Significant(text[pos..])|
  {
    hide Significant, Fits, PadsIn, NextByte, GroupBytes, Gives;
    var s := Significant(text[pos..]);
    if s == [] {
      NoneLeft(text, pos, bits);
    } else if !Fits(s, 0, 4) {
      BadGroup(text, pos, bits, s);
    } else {
      FitsLength(s, 0, 4);
      if PadsIn(s, 4) > 2 {
        BadGroup(text, pos, bits, s);
        if Reads(text, State(pos, bits, 0), data) {
          ReadsMeansEnds(text, State(pos, bits, 0), data);
          NegativeNeverEnds(text, NextByte(text, State(pos, bits, 0)).value.1, |data| - 1);
        }
      } else {
        var pos', bits' := GroupGives(text, pos, bits, s);
        GivesThenReads(text, State(pos, bits, 0), GroupBytes(s), State(pos', bits', 0), data);
        hide Reads;
        if GroupBytes(s) <= data {
          var rest := data[|GroupBytes(s)|..];
          ReadsIffAccepted(text, pos', bits', rest);
          assert data == GroupBytes(s) + rest;
        }
      }
    }
  }

  /** Reading ends, with -1 or an exception, unless a group has more than two paddings. */
  lemma {:induction false} EndsUnlessOverPadded(text: string, pos: nat, bits: int, n: nat) returns (enough: nat)
    requires pos <= |text|
    ensures var s := Significant(text[pos..]); var start := State(pos, bits, 0);
            if OverPadded(s) then !EndsWithin(text, start, n) else EndsWithin(text, start, enough)
    decreases |Significant(text[pos..])|
  {
    hide Significant, Fits, PadsIn, NextByte, GroupBytes, Gives;
    var s := Significant(text[pos..]);
    enough := 0;
    if s == [] {
      NoneLeft(text, pos, bits);
    } else if !Fits(s, 0, 4) {
      BadGroup(text, pos, bits, s);
    } else {
      FitsLength(s, 0, 4);
      if PadsIn(s, 4) > 2 {
        BadGroup(text, pos, bits, s);
        if n > 0 {
          NegativeNeverEnds(text, NextByte(text, State(pos, bits, 0)).value.1, n - 1);
        }
      } else {
        var size := |GroupBytes(s)|;
        var pos', bits' := GroupGives(text, pos, bits, s);
        var enough' := EndsUnlessOverPadded(text, pos', bits', if n < size then 0 else n - size);
        enough := size + enough';
        GivesThenEnds(text, State(pos, bits, 0), GroupBytes(s), State(pos', bits', 0), n);
        GivesThenEnds(text, State(pos, bits, 0), GroupBytes(s), State(pos', bits', 0), enough);
      }
    }
  }

  /** A reader of a text comes to an end exactly when no group of it has more than two paddings. */
  lemma EndsIffNotOverPadded(text: string)
    ensures (exists n :: EndsWithin(text, State(0, 0, 0), n)) <==> !OverPadded(Significant(text))
  {
    assert text[0..] == text;
    var enough := EndsUnlessOverPadded(text, 0, 0, 0);
    forall n
      ensures OverPadded(Significant(text)) ==> !EndsWithin(text, State(0, 0, 0), n)
    {
      var _ := EndsUnlessOverPadded(text, 0, 0, n);
    }
  }

  /** The same condition at the level of characters: padding stands only at the end of a group of four. */
  ghost predicate WellPadded(s: string) {
    |s| % 4 == 0 && forall k :: 0 <= k < |s| ==> Placed(s, k)
  }

  ghost predicate Placed(s: string, k: nat)
    requires k < |s| && |s| % 4 == 0
  {
    IndexOf(s[k]) >= 0 && (s[k] == '=' ==> k % 4 == 3 || (k % 4 == 2 && s[k + 1] == '='))
  }

  /** The first group, character by character. */
  lemma FirstGroup(s: string)
    requires |s| >= 4
    ensures Fits(s, 0, 4) && PadsIn(s, 4) <= 2 <==>
            && IndexOf(s[0]) >= 0 && IndexOf(s[1]) >= 0 && IndexOf(s[2]) >= 0 && IndexOf(s[3]) >= 0
            && s[0] != '=' && s[1] != '=' && (s[2] == '=' ==> s[3] == '=')
    ensures s[0] != '=' && s[1] != '=' ==> PadsIn(s, 4) == (if s[2] == '=' then 1 else 0) + if s[3] == '=' then 1 else 0
  {
    hide IndexOf;
    var p1 := PadsIn(s, 1);
    var p2 := p1 + PadsIn(s[1..], 1);
    var p3 := p2 + PadsIn(s[2..], 1);
    assert s[1..][1..] == s[2..] && s[2..][1..] == s[3..] && s[3..][1..] == s[4..];
    assert Fits(s[3..], p3, 1) == !Refused(s[3], p3);
    assert Fits(s[2..], p2, 2) == (!Refused(s[2], p2) && Fits(s[3..], p3, 1));
    assert Fits(s[1..], p1, 3) == (!Refused(s[1], p1) && Fits(s[2..], p2, 2));
    assert PadsIn(s[2..], 2) == PadsIn(s[2..], 1) + PadsIn(s[3..], 1);
    assert PadsIn(s[1..], 3) == PadsIn(s[1..], 1) + PadsIn(s[2..], 2);
    assert PadsIn(s, 4) == p1 + PadsIn(s[1..], 3);
  }

  lemma PlacedByGroups(s: string)
    requires |s| >= 4 && |s| % 4 == 0
    ensures WellPadded(s) <==> Placed(s, 0) && Placed(s, 1) && Placed(s, 2) && Placed(s, 3) && WellPadded(s[4..])
  {
    var rest := s[4..];
    hide IndexOf;
    forall k: nat | k < |rest|
      ensures Placed(rest, k) == Placed(s, k + 4)
    {
      assert (k + 4) % 4 == k % 4 && s[k + 4] == rest[k];
    }
    hide Placed;
    if !WellPadded(s) {
      var k: nat :| k < |s| && !Placed(s, k);
      assert k >= 4 ==> !Placed(rest, k - 4);
    }
  }

  lemma {:induction false} AcceptedIffWellPadded(s: string)
    ensures Accepted(s) <==> WellPadded(s)
    decreases |s|
  {
    hide IndexOf, Fits, PadsIn, WellPadded;
    if s == [] {
      NoneMisplaced();
    } else if |s| < 4 {
      NotInFours(s);
    } else {
      FirstGroup(s);
      AcceptedIffWellPadded(s[4..]);
      if |s| % 4 == 0 {
        PlacedByGroups(s);
      } else {
        NotInFours(s);
        NotInFours(s[4..]);
      }
    }
  }

  lemma NoneMisplaced()
    ensures WellPadded([])
  {
  }

  lemma NotInFours(s: string)
    ensures WellPadded(s) ==> |s| % 4 == 0
  {
  }

  /** A text is read to its end without an exception exactly when it is well padded. */
  lemma ReadsIffWellPadded(text: string)
    ensures (exists data :: Reads(text, State(0, 0, 0), data)) <==> WellPadded(Significant(text))
  {
    var s := Significant(text);
    assert text[0..] == text;
    AcceptedIffWellPadded(s);
    hide Reads, WellPadded, Accepted;
    forall data
      ensures Reads(text, State(0, 0, 0), data) <==> Accepted(s) && data == Decoded(s)
    {
      ReadsIffAccepted(text, 0, 0, data);
    }
    if Accepted(s) {
      assert Reads(text, State(0, 0, 0), Decoded(s));
    }
  }

  lemma JoinBytes(d0: byte, d1: byte, d2: byte)
    ensures Value(First(d0), Second(d0, d1), Third(d1, d2), Fourth(d2)) == d0 * 0x1_0000 + d1 * 0x100 + d2
  {
    assert d0 as int == d0 / 4 * 4 + d0 % 4 && d1 as int == d1 / 16 * 16 + d1 % 16
      && d2 as int == d2 / 64 * 64 + d2 % 64;
  }

  lemma TopBytes(d0: byte, d1: byte, d2: byte)
    ensures var v := d0 as int * 0x1_0000 + d1 as int * 0x100 + d2;
            v / 0x1_0000 == d0 && v / 0x100 % 256 == d1 && v % 256 == d2
  {
    var v := d0 as int * 0x1_0000 + d1 as int * 0x100 + d2;
    assert v / 0x100 == d0 as int * 0x100 + d1;
  }

  lemma NoThird()
    ensures Third(0, 0) == 0
  {
  }

  lemma NoFourth()
    ensures Fourth(0) == 0
  {
  }

  lemma Padding()
    ensures Letter(64) == '='
  {
  }

  /** A group that was written. */
  lemma WrittenGroup(i0: nat, i1: nat, i2: nat, i3: nat, rest: string)
    requires i0 < 64 && i1 < 64 && i2 <= 64 && i3 <= 64 && (i2 == 64 ==> i3 == 64)
    ensures var s := [Letter(i0), Letter(i1), Letter(i2), Letter(i3)] + rest;
            && Fits(s, 0, 4) && PadsIn(s, 4) == (if i2 == 64 then 2 else if i3 == 64 then 1 else 0)
            && GroupValue(s) == Value(i0, i1, i2 % 64, i3 % 64) && s[4..] == rest
  {
    hide Letter, Fits, PadsIn, Value, IndexOf;
    var s := [Letter(i0), Letter(i1), Letter(i2), Letter(i3)] + rest;
    LetterIndex(i0);
    LetterIndex(i1);
    LetterIndex(i2);
    LetterIndex(i3);
    FirstGroup(s);
    PaddingIndex(s[0]);
    PaddingIndex(s[1]);
    PaddingIndex(s[2]);
    PaddingIndex(s[3]);
  }

  /** Encoding is accepted, and decoding undoes it. */
  lemma {:induction false} DecodedEncoded(data: seq<byte>)
    ensures Accepted(Encoded(data)) && Decoded(Encoded(data)) == data
    decreases |data|
  {
    hide Letter, Value, First, Second, Third, Fourth, Fits, PadsIn, GroupValue, IndexOf;
    NoThird();
    NoFourth();
    Padding();
    if data != [] {
      var d0, d1, d2 := data[0], if |data| > 1 then data[1] else 0, if |data| > 2 then data[2] else 0;
      var rest := if |data| > 3 then data[3..] else [];
      var i2, i3 := if |data| > 1 then Third(d1, d2) else 64, if |data| > 2 then Fourth(d2) else 64;
      WrittenGroup(First(d0), Second(d0, d1), i2, i3, Encoded(rest));
      JoinBytes(d0, d1, d2);
      TopBytes(d0, d1, d2);
      DecodedEncoded(rest);
      assert Encoded(data) == [Letter(First(d0)), Letter(Second(d0, d1)), Letter(i2), Letter(i3)] + Encoded(rest);
      assert data == GroupBytes(Encoded(data)) + rest;
    }
  }

  /** Base64 text, blanks and line ends anywhere, is read as the bytes that it encodes. */
  lemma TextRoundTrip(text: string, data: seq<byte>)
    requires Significant(text) == Encoded(data)
    ensures Reads(text, State(0, 0, 0), data)
  {
    assert text[0..] == text;
    DecodedEncoded(data);
    ReadsIffAccepted(text, 0, 0, data);
  }

  /** Padding after a single letter is accepted, and then bytes come for ever. */
  lemma ExtraPaddingIsAccepted(n: nat)
    ensures var r := NextByte("A===", State(0, 0, 0)); r.Ok? && r.value.0.Some? && r.value.1.bitsLength == -2
    ensures !EndsWithin("A===", State(0, 0, 0), n)
  {
    hide Wrap, ShiftRight;
    var text, b1 := "A===", Wrap(0);
    var b2 := Wrap(b1 * 64);
    var b3 := Wrap(b2 * 64);
    var g4 := Group(4, Wrap(b3 * 64), 4, 3);
    assert ReadGroup(text, g4) == Ok(g4);
    assert ReadGroup(text, Group(3, b3, 3, 2)) == Ok(g4);
    assert ReadGroup(text, Group(2, b2, 2, 1)) == Ok(g4);
    assert ReadGroup(text, Group(1, b1, 1, 0)) == Ok(g4);
    assert ReadGroup(text, Group(0, 0, 0, 0)) == Ok(g4);
    hide ReadGroup;
    if n > 0 {
      NegativeNeverEnds(text, NextByte(text, State(0, 0, 0)).value.1, n - 1);
    }
  }

  lemma SameGroup(s: string, more: string)
    requires |s| >= 4 && Fits(s, 0, 4) && PadsIn(s, 4) <= 2
    ensures Fits(s + more, 0, 4) && PadsIn(s + more, 4) == PadsIn(s, 4) && GroupBytes(s + more) == GroupBytes(s)
    ensures (s + more)[4..] == s[4..] + more
  {
    hide Fits, PadsIn, IndexOf, Value;
    FirstGroup(s);
    FirstGroup(s + more);
    assert GroupValue(s + more) == GroupValue(s);
  }

  lemma {:induction false} DecodedConcatenated(s: string, more: string)
    requires Accepted(s) && Accepted(more)
    ensures Accepted(s + more) && Decoded(s + more) == Decoded(s) + Decoded(more)
    decreases |s|
  {
    hide Fits, PadsIn, GroupBytes;
    if s == [] {
      assert s + more == more;
    } else {
      SameGroup(s, more);
      DecodedConcatenated(s[4..], more);
    }
  }

  /** Padding inside a text is accepted: encodings one behind the other are read as one. */
  lemma InnerPaddingIsAccepted(text: string, data: seq<byte>, more: seq<byte>)
    requires Significant(text) == Encoded(data) + Encoded(more)
    ensures Reads(text, State(0, 0, 0), data + more)
  {
    assert text[0..] == text;
    DecodedEncoded(data);
    DecodedEncoded(more);
    hide *;
    DecodedConcatenated(Encoded(data), Encoded(more));
    ReadsIffAccepted(text, 0, 0, data + more);
  }
}
