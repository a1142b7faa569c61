/** The UTF-8 translator of deflate.js, which gives UTF-16 units (RFC 2279, RFC 2781). */
module Utf8 {
  import opened Octets
  import opened Results
  import opened BitStreams

  // ----- Encoding -----

  /** A Unicode scalar value. */
  type Scalar = c: nat | c < 0x110000 && !(0xD800 <= c < 0xE000)

  /** The bytes of a character (RFC 2279, section 2). */
  function Encoded(c: Scalar): seq<byte> {
    if c < 0x80 then [c]
    else if c < 0x800 then [0xC0 + c / 64, 0x80 + c % 64]
    else if c < 0x10000 then [0xE0 + c / 4096, 0x80 + c / 64 % 64, 0x80 + c % 64]
    else [0xF0 + c / 262144, 0x80 + c / 4096 % 64, 0x80 + c / 64 % 64, 0x80 + c % 64]
  }

  function EncodedAll(text: seq<Scalar>): seq<byte> {
    if text == [] then [] else Encoded(text[0]) + EncodedAll(text[1..])
  }

  /** The units of a character (RFC 2781, section 2.1). */
  function Units(c: Scalar): seq<nat> {
    if c < 0x10000 then [c] else [0xD800 + (c - 0x10000) / 1024, 0xDC00 + (c - 0x10000) % 1024]
  }

  /** A character beyond the basic plane has a high and a low surrogate, which tell the character. */
  lemma SurrogatesTell(c: Scalar)
    ensures c < 0x10000 ==> Units(c) == [c]
    ensures c >= 0x10000 ==>
      var u := Units(c);
      && |u| == 2 && 0xD800 <= u[0] < 0xDC00 <= u[1] < 0xE000
      && c == 0x10000 + (u[0] - 0xD800) * 0x400 + (u[1] - 0xDC00)
  {
  }

  function UnitsAll(text: seq<Scalar>): seq<nat> {
    if text == [] then [] else Units(text[0]) + UnitsAll(text[1..])
  }

  /** One leading byte order mark is not text. */
  function WithoutMark(text: seq<Scalar>): seq<Scalar> {
    if text != [] && text[0] == 0xFEFF then text[1..] else text
  }

  // ----- What the translator reads -----

  /** How many bits of the first byte belong to the character; none when no sequence starts with it. */
  function ValidBits(b1: byte): int
    requires b1 >= 0x80
  {
    if b1 < 0xC0 then -1
    else if b1 < 0xE0 then 5
    else if b1 < 0xF0 then 4
    else if b1 < 0xF8 then 3
    else if b1 < 0xFC then 2
    else if b1 < 0xFE then 1
    else if b1 < 0xFF then 0
    else -1
  }

  function LowBits(b: byte, n: nat): nat
    requires n <= 5
  {
    match n
    case 0 => 0
    case 1 => b % 2
    case 2 => b % 4
    case 3 => b % 8
    case 4 => b % 16
    case 5 => b % 32
  }

  /** Continuation bytes, six bits each. */
  function Continued(data: seq<byte>, pos: nat, code: nat, n: nat): Result<(nat, nat)>
    requires pos <= |data|
    decreases n
  {
    if n == 0 then Ok((code, pos))
    else if pos == |data| || data[pos] / 64 != 2 then Throws(InvalidSequence)
    else Continued(data, pos + 1, code * 64 + data[pos] % 64, n - 1)
  }

  /** One character and the position after it, or nothing at the end. */
  function ReadCode(data: seq<byte>, pos: nat): (r: Result<Option<(nat, nat)>>)
    requires pos <= |data|
  {
    if pos == |data| then Ok(None)
    else if data[pos] < 0x80 then Ok(Some((data[pos], pos + 1)))
    else
      var n := ValidBits(data[pos]);
      if n <= 0 then Throws(InvalidCharacter)
      else
        match Continued(data, pos + 1, LowBits(data[pos], n), 6 - n)
        case Throws(e) => Throws(e)
        case Ok(c) => Ok(Some(c))
  }

  lemma {:induction false} ContinuedAdvances(data: seq<byte>, pos: nat, code: nat, n: nat)
    requires pos <= |data|
    ensures var r := Continued(data, pos, code, n); r.Ok? ==> pos <= r.value.1 <= |data|
    decreases n
  {
    if n > 0 && pos < |data| {
      ContinuedAdvances(data, pos + 1, code * 64 + data[pos] % 64, n - 1);
    }
  }

  lemma ReadCodeAdvances(data: seq<byte>, pos: nat)
    requires pos <= |data|
    ensures var r := ReadCode(data, pos); r.Ok? && r.value.Some? ==> pos < r.value.value.1 <= |data|
  {
    if pos < |data| && data[pos] >= 0x80 && ValidBits(data[pos]) > 0 {
      ContinuedAdvances(data, pos + 1, LowBits(data[pos], ValidBits(data[pos])), 6 - ValidBits(data[pos]));
    }
  }

  /** What the translator keeps between calls. */
  datatype State = State(pos: nat, waitBom: bool, pending: Option<nat>)

  /** The next unit, or nothing at the end. */
  function NextUnit(data: seq<byte>, s: State): Result<(Option<nat>, State)>
    requires s.pos <= |data|
    decreases s.waitBom
  {
    if s.pending.Some? then Ok((s.pending, State(s.pos, false, None)))
    else
      match ReadCode(data, s.pos)
      case Throws(e) => Throws(e)
      case Ok(None) => Ok((None, s))
      case Ok(Some((code, next))) =>
        ReadCodeAdvances(data, s.pos);
        if code == 0xFEFF && s.waitBom then NextUnit(data, State(next, false, None))
        else if code < 0x10000 then Ok((Some(code), State(next, false, None)))
        else
          var v := code - 0x10000;
          Ok((Some(0xD800 + v / 1024 % 1024), State(next, false, Some(0xDC00 + v % 1024))))
  }

  lemma NextUnitAdvances(data: seq<byte>, s: State)
    requires s.pos <= |data|
    ensures var r := NextUnit(data, s);
            r.Ok? ==> s.pos <= r.value.1.pos <= |data| &&
                      (r.value.0.Some? ==>
                         s.pos < r.value.1.pos || (s.pending.Some? && r.value.1 == State(s.pos, false, None)))
    decreases s.waitBom
  {
    if s.pending.None? {
      ReadCodeAdvances(data, s.pos);
      var r := ReadCode(data, s.pos);
      if r.Ok? && r.value.Some? && r.value.value.0 == 0xFEFF && s.waitBom {
        NextUnitAdvances(data, State(r.value.value.1, false, None));
      }
    }
  }

  /** All units to the end. */
  function Rest(data: seq<byte>, s: State): Result<seq<nat>>
    requires s.pos <= |data|
    decreases |data| - s.pos, if s.pending.Some? then 1 else 0
  {
    match NextUnit(data, s)
    case Throws(e) => Throws(e)
    case Ok((None, _)) => Ok([])
    case Ok((Some(unit), s')) =>
      NextUnitAdvances(data, s);
      match Rest(data, s')
      case Throws(e) => Throws(e)
      case Ok(units) => Ok([unit] + units)
  }

  // ----- Round trip -----

  lemma TwoBytes(c: Scalar, data: seq<byte>, pos: nat)
    requires 0x80 <= c < 0x800 && pos + 2 <= |data| && data[pos] == 0xC0 + c / 64 && data[pos + 1] == 0x80 + c % 64
    ensures ReadCode(data, pos) == Ok(Some((c as nat, pos + 2)))
  {
    assert LowBits(data[pos], 5) == c / 64;
    assert Continued(data, pos + 2, c, 0) == Ok((c as nat, pos + 2));
  }

  lemma ThreeBytes(c: Scalar, data: seq<byte>, pos: nat)
    requires 0x800 <= c < 0x10000 && pos + 3 <= |data| && data[pos] == 0xE0 + c / 4096
    requires data[pos + 1] == 0x80 + c / 64 % 64 && data[pos + 2] == 0x80 + c % 64
    ensures ReadCode(data, pos) == Ok(Some((c as nat, pos + 3)))
  {
    var c2 := c / 64;
    assert c2 / 64 == c / 4096;
    assert LowBits(data[pos], 4) == c / 4096;
    assert c2 == c / 4096 * 64 + c2 % 64;
    assert Continued(data, pos + 3, c, 0) == Ok((c as nat, pos + 3));
    assert Continued(data, pos + 2, c2, 1) == Ok((c as nat, pos + 3));
  }

  lemma FourBytes(c: Scalar, data: seq<byte>, pos: nat)
    requires 0x10000 <= c && pos + 4 <= |data| && data[pos] == 0xF0 + c / 262144
    requires data[pos + 1] == 0x80 + c / 4096 % 64 && data[pos + 2] == 0x80 + c / 64 % 64
             && data[pos + 3] == 0x80 + c % 64
    ensures ReadCode(data, pos) == Ok(Some((c as nat, pos + 4)))
  {
    var c2, c3 := c / 64, c / 4096;
    assert c2 / 64 == c3 && c3 / 64 == c / 262144;
    assert LowBits(data[pos], 3) == c / 262144;
    assert c3 == c / 262144 * 64 + c3 % 64 && c2 == c3 * 64 + c2 % 64;
    assert Continued(data, pos + 4, c, 0) == Ok((c as nat, pos + 4));
    assert Continued(data, pos + 3, c2, 1) == Ok((c as nat, pos + 4));
    assert Continued(data, pos + 2, c3, 2) == Ok((c as nat, pos + 4));
  }

  /** A character's bytes are read as that character. */
  lemma EncodedReads(c: Scalar, data: seq<byte>, pos: nat)
    requires pos + |Encoded(c)| <= |data| && data[pos..pos + |Encoded(c)|] == Encoded(c)
    ensures ReadCode(data, pos) == Ok(Some((c as nat, pos + |Encoded(c)|)))
  {
    hide ReadCode;
    var bytes := Encoded(c);
    var part := data[pos..pos + |bytes|];
    assert forall i :: 0 <= i < |bytes| ==> part[i] == data[pos + i];
    assert data[pos] == bytes[0] && (c >= 0x80 ==> data[pos + 1] == bytes[1]);
    if c < 0x80 {
      OneByte(c, data, pos);
    } else if c < 0x800 {
      TwoBytes(c, data, pos);
    } else if c < 0x10000 {
      ThreeBytes(c, data, pos);
    } else {
      FourBytes(c, data, pos);
    }
  }

  lemma OneByte(c: Scalar, data: seq<byte>, pos: nat)
    requires c < 0x80 && pos < |data| && data[pos] == c
    ensures ReadCode(data, pos) == Ok(Some((c as nat, pos + 1)))
  {
  }

  /** A byte that no sequence starts with, or a sequence that ends early or goes on with another byte, is refused. */
  lemma Malformed(data: seq<byte>, pos: nat)
    requires pos < |data|
    ensures 0x80 <= data[pos] < 0xC0 || data[pos] >= 0xFE ==> ReadCode(data, pos) == Throws(InvalidCharacter)
    ensures 0xC0 <= data[pos] < 0xFE && (pos + 1 == |data| || !(0x80 <= data[pos + 1] < 0xC0)) ==>
              ReadCode(data, pos) == Throws(InvalidSequence)
  {
  }

  /** A character that is cut short is refused. */
  lemma CutShort(c: Scalar, data: seq<byte>, pos: nat)
    requires pos < |data| < pos + |Encoded(c)| && data[pos..] == Encoded(c)[..|data| - pos]
    ensures ReadCode(data, pos) == Throws(InvalidSequence)
  {
    var n := |data| - pos;
    assert forall i :: 0 <= i < n ==> data[pos + i] == data[pos..][i];
    var bits := ValidBits(data[pos]);
    assert bits == if |Encoded(c)| == 2 then 5 else if |Encoded(c)| == 3 then 4 else 3;
    hide Encoded, LowBits;
    CutContinued(data, pos + 1, LowBits(data[pos], bits), 6 - bits);
  }

  lemma {:induction false} CutContinued(data: seq<byte>, pos: nat, code: nat, n: nat)
    requires pos <= |data| < pos + n
    ensures Continued(data, pos, code, n) == Throws(InvalidSequence)
    decreases n
  {
    if pos < |data| {
      CutContinued(data, pos + 1, code * 64 + data[pos] % 64, n - 1);
    }
  }

  /** More bytes than a character needs are not refused: these two stand for the character 0. */
  lemma OverlongIsRead()
    ensures ReadCode([0xC0, 0x80], 0) == Ok(Some((0, 2)))
  {
    assert Continued([0xC0, 0x80], 2, 0, 0) == Ok((0, 2));
  }

  /** The last four bytes of a long form. */
  ghost predicate LongTail(c: nat, data: seq<byte>, pos: nat) {
    && pos + 4 <= |data| && data[pos] == 0x80 + c / 0x40000 % 64 && data[pos + 1] == 0x80 + c / 0x1000 % 64
    && data[pos + 2] == 0x80 + c / 0x40 % 64 && data[pos + 3] == 0x80 + c % 64
  }

  lemma LongTailReads(c: nat, data: seq<byte>, pos: nat)
    requires LongTail(c, data, pos)
    ensures Continued(data, pos, c / 0x1000000, 4) == Ok((c, pos + 4))
  {
    var c1, c2, c3 := c / 64, c / 64 / 64, c / 64 / 64 / 64;
    assert c1 == c / 0x40 && c2 == c / 0x1000 && c3 == c / 0x40000 && c3 / 64 == c / 0x1000000;
    assert c == c1 * 64 + c % 64 && c1 == c2 * 64 + c1 % 64 && c2 == c3 * 64 + c2 % 64;
    assert c3 == c3 / 64 * 64 + c3 % 64;
    assert Continued(data, pos + 4, c, 0) == Ok((c, pos + 4));
    assert Continued(data, pos + 3, c1, 1) == Ok((c, pos + 4));
    assert Continued(data, pos + 2, c2, 2) == Ok((c, pos + 4));
    assert Continued(data, pos + 1, c3, 3) == Ok((c, pos + 4));
  }

  /** The forms of five and six bytes are read as well (RFC 2279, section 2). */
  lemma FiveBytes(c: nat, data: seq<byte>, pos: nat)
    requires 0x200000 <= c < 0x4000000 && pos < |data| && data[pos] as int == 0xF8 + c / 0x1000000
    requires LongTail(c, data, pos + 1)
    ensures ReadCode(data, pos) == Ok(Some((c, pos + 5)))
  {
    assert LowBits(data[pos], 2) == c / 0x1000000;
    LongTailReads(c, data, pos + 1);
    hide Continued, LongTail;
  }

  lemma SixBytes(c: nat, data: seq<byte>, pos: nat)
    requires 0x4000000 <= c < 0x80000000 && pos + 1 < |data| && data[pos] as int == 0xFC + c / 0x40000000
    requires data[pos + 1] == 0x80 + c / 0x1000000 % 64 && LongTail(c, data, pos + 2)
    ensures ReadCode(data, pos) == Ok(Some((c, pos + 6)))
  {
    assert LowBits(data[pos], 1) == c / 0x40000000;
    var c4 := c / 0x1000000;
    assert c4 / 64 == c / 0x40000000 && c4 == c4 / 64 * 64 + c4 % 64;
    LongTailReads(c, data, pos + 2);
    hide LongTail;
    assert Continued(data, pos + 1, c4 / 64, 5) == Continued(data, pos + 2, c4, 4);
  }

  /** After the start, a text's bytes are read as its units. */
  lemma {:induction false} TextReads(text: seq<Scalar>, data: seq<byte>, pos: nat, waitBom: bool)
    requires pos <= |data| && data[pos..] == EncodedAll(text) && (waitBom ==> text == [] || text[0] != 0xFEFF)
    ensures Rest(data, State(pos, waitBom, None)) == Ok(UnitsAll(text))
    decreases |text|
  {
    hide ReadCode, Encoded;
    if text == [] {
      EndReads(data);
    } else {
      var c := text[0] as nat;
      var bytes, next := Encoded(text[0]), pos + |Encoded(text[0])|;
      assert data[pos..][..|bytes|] == data[pos..next] == bytes;
      assert data[next..] == data[pos..][|bytes|..] == EncodedAll(text[1..]);
      EncodedReads(text[0], data, pos);
      TextReads(text[1..], data, next, false);
      if c < 0x10000 {
        assert Rest(data, State(pos, waitBom, None)) == Ok([c] + UnitsAll(text[1..]));
      } else {
        var w1, w2 := 0xD800 + (c - 0x10000) / 1024, 0xDC00 + (c - 0x10000) % 1024;
        assert (c - 0x10000) / 1024 < 1024;
        assert Rest(data, State(next, false, Some(w2))) == Ok([w2] + UnitsAll(text[1..]));
        assert Rest(data, State(pos, waitBom, None)) == Ok([w1] + ([w2] + UnitsAll(text[1..])));
        assert [w1] + ([w2] + UnitsAll(text[1..])) == Units(text[0]) + UnitsAll(text[1..]);
      }
    }
  }

  lemma EndReads(data: seq<byte>)
    ensures ReadCode(data, |data|) == Ok(None)
  {
  }

  /** The bytes of any text are read as its units, without one leading byte order mark. */
  lemma TextRoundTrip(text: seq<Scalar>)
    ensures Rest(EncodedAll(text), State(0, true, None)) == Ok(UnitsAll(WithoutMark(text)))
  {
    var data := EncodedAll(text);
    assert data[0..] == data;
    if text != [] && text[0] == 0xFEFF {
      hide ReadCode, Encoded;
      var next := |Encoded(text[0])|;
      assert data[0..next] == Encoded(text[0]) && data[next..] == EncodedAll(text[1..]);
      EncodedReads(text[0], data, 0);
      TextReads(text[1..], data, next, false);
    } else {
      TextReads(text, data, 0, true);
    }
  }

  // ----- The translator -----

  /** The loop that looks for the first byte's prefix: more and more leading ones. */
  method FindPrefix(b1: byte) returns (validBits: int)
    requires b1 >= 0x80
    ensures validBits == ValidBits(b1)
  {
    var currentPrefix, unit := 0xC0, 32;
    validBits := 5;
    while validBits >= 0
      invariant -1 <= validBits <= 5
      invariant validBits == 5 ==> currentPrefix == 0xC0 && unit == 32
      invariant validBits == 4 ==> currentPrefix == 0xE0 && unit == 16 && !(0xC0 <= b1 < 0xE0)
      invariant validBits == 3 ==> currentPrefix == 0xF0 && unit == 8 && !(0xC0 <= b1 < 0xF0)
      invariant validBits == 2 ==> currentPrefix == 0xF8 && unit == 4 && !(0xC0 <= b1 < 0xF8)
      invariant validBits == 1 ==> currentPrefix == 0xFC && unit == 2 && !(0xC0 <= b1 < 0xFC)
      invariant validBits == 0 ==> currentPrefix == 0xFE && unit == 1 && !(0xC0 <= b1 < 0xFE)
      invariant validBits == -1 ==> !(0xC0 <= b1 < 0xFF)
    {
      // the byte with the bits below the mask cleared
      if b1 - b1 % unit == currentPrefix {
        break;
      }
      currentPrefix := currentPrefix / 2 + 0x80;
      unit := unit / 2;
      validBits := validBits - 1;
    }
  }

  class Utf8Translator {
    const reader: ByteReader
    var waitBom: bool
    var pendingChar: Option<nat>

    constructor (reader: ByteReader)
      ensures this.reader == reader && waitBom && pendingChar == None
    {
      this.reader, waitBom, pendingChar := reader, true, None;
    }

    ghost predicate Valid()
      reads this, reader
    {
      reader.position <= |reader.data|
    }

    ghost function Now(): State
      reads this, reader
    {
      State(reader.position, waitBom, pendingChar)
    }

    /** A character of several bytes whose first one has been read. */
    method ReadContinued(b1: byte, validBits: nat) returns (r: Result<nat>)
      requires Valid() && 1 <= validBits <= 5
      modifies reader
      ensures match Continued(reader.data, old(reader.position), LowBits(b1, validBits), 6 - validBits)
        case Throws(e) => r == Throws(e)
        case Ok((code, pos)) => r == Ok(code) && reader.position == pos
      ensures r.Ok? ==> Valid()
    {
      hide LowBits;
      var code: nat := LowBits(b1, validBits);
      var i := 5;
      while i >= validBits
        invariant validBits - 1 <= i <= 5 && reader.position <= |reader.data|
        invariant Continued(reader.data, reader.position, code, i + 1 - validBits)
               == Continued(reader.data, old(reader.position), LowBits(b1, validBits), 6 - validBits)
      {
        var bi := reader.ReadByte();
        if bi < 0 || bi / 64 != 2 {
          return Throws(InvalidSequence);
        }
        code := code * 64 + bi % 64;
        i := i - 1;
      }
      r := Ok(code);
    }

    /** The next unit, or nothing at the end. */
    method ReadChar() returns (r: Result<Option<nat>>)
      requires Valid()
      modifies this, reader
      ensures match NextUnit(reader.data, old(Now()))
        case Throws(e) => r == Throws(e)
        case Ok((unit, s)) => r == Ok(unit) && Now() == s
      ensures r.Ok? ==> Valid()
    {
      hide Continued, LowBits, ValidBits;
      var ch: Option<nat> := None;
      while true
        invariant Valid() && ch == None
        invariant NextUnit(reader.data, Now()) == NextUnit(reader.data, old(Now()))
        decreases waitBom
      {
        if pendingChar.Some? {
          ch := pendingChar;
          pendingChar := None;
        } else {
          var b1 := reader.ReadByte();
          if b1 < 0 {
            return Ok(None);
          }
          if b1 < 0x80 {
            ch := Some(b1);
          } else {
            var validBits := FindPrefix(b1);
            if validBits > 0 {
              BitsInRange(b1);
              var code :- ReadContinued(b1, validBits);
              if code <= 0xFFFF {
                if code == 0xFEFF && waitBom {
                  ch := None;
                } else {
                  ch := Some(code);
                }
              } else {
                var v := code - 0x10000;
                pendingChar := Some(0xDC00 + v % 1024);
                ch := Some(0xD800 + v / 1024 % 1024);
              }
            } else {
              return Throws(InvalidCharacter);
            }
          }
        }
        waitBom := false;
        if ch != None {
          break;
        }
      }
      r := Ok(ch);
    }
  }

  lemma BitsInRange(b1: byte)
    requires b1 >= 0x80
    ensures ValidBits(b1) <= 5
  {
  }

  /** Reading to the end gives exactly the units that are left. */
  method ReadToEnd(translator: Utf8Translator) returns (r: Result<seq<nat>>)
    requires translator.Valid()
    modifies translator, translator.reader
    ensures r == Rest(translator.reader.data, old(translator.Now()))
  {
    hide NextUnit;
    var s: seq<nat> := [];
    ghost var data, all := translator.reader.data, Rest(translator.reader.data, translator.Now());
    NoneFollowed(all);
    while true
      invariant translator.Valid()
      invariant all == Followed(s, Rest(data, translator.Now()))
      decreases |data| - translator.reader.position, if translator.pendingChar.Some? then 1 else 0
    {
      ghost var before := translator.Now();
      NextUnitAdvances(data, before);
      RestUnfolds(data, before, s);
      var ch :- translator.ReadChar();
      if ch == None {
        break;
      }
      s := s + [ch.value];
    }
    r := Ok(s);
  }

  ghost function Followed(s: seq<nat>, rest: Result<seq<nat>>): Result<seq<nat>> {
    match rest
    case Throws(e) => Throws(e)
    case Ok(units) => Ok(s + units)
  }

  lemma NoneFollowed(rest: Result<seq<nat>>)
    ensures Followed([], rest) == rest
  {
    if rest.Ok? { assert [] + rest.value == rest.value; }
  }

  lemma RestUnfolds(data: seq<byte>, state: State, s: seq<nat>)
    requires state.pos <= |data|
    ensures var r := NextUnit(data, state);
            && (r.Throws? ==> Followed(s, Rest(data, state)) == Throws(r.exception))
            && (r.Ok? && r.value.0.None? ==> Followed(s, Rest(data, state)) == Ok(s))
            && (r.Ok? && r.value.0.Some? ==> r.value.1.pos <= |data| &&
                                             Followed(s, Rest(data, state)) ==
                                               Followed(s + [r.value.0.value], Rest(data, r.value.1)))
  {
    NextUnitAdvances(data, state);
    var r := NextUnit(data, state);
    if r.Ok? && r.value.0.Some? {
      var rest := Rest(data, r.value.1);
      if rest.Ok? {
        assert s + ([r.value.0.value] + rest.value) == (s + [r.value.0.value]) + rest.value;
      }
    } else if r.Ok? {
      assert s + [] == s;
    }
  }
}
