/** Byte sources and the bit reader of deflate.js. A reader is specified by its cursor: the number
    of bits it has consumed, counting each byte from its least significant bit. */
module BitStreams {
  import opened Octets
  import opened Powers
  import opened Results

  /** Bit i of the data, in the packing order of RFC 1951, section 3.1.1. */
  function Bit(data: seq<byte>, i: nat): bool
    requires i < 8 * |data|
  {
    Shr(data[i / 8], i % 8) % 2 == 1
  }

  /** The number whose binary digits, least significant first, are the n bits from pos on. */
  function LsbValue(data: seq<byte>, pos: nat, n: nat): nat
    requires pos + n <= 8 * |data|
  {
    if n == 0 then 0
    else LsbValue(data, pos, n - 1) + if Bit(data, pos + n - 1) then Pow2(n - 1) else 0
  }

  function PeekBit(data: seq<byte>, pos: nat): Result<bool> {
    if pos < 8 * |data| then Ok(Bit(data, pos)) else Throws(UnexpectedEnd)
  }

  function PeekLsb(data: seq<byte>, pos: nat, n: nat): Result<nat> {
    if pos + n <= 8 * |data| then Ok(LsbValue(data, pos, n)) else Throws(UnexpectedEnd)
  }

  /** A source of bytes: the model of any reader with a readByte method, over data fixed in advance. */
  class ByteReader {
    const data: seq<byte>
    var position: nat

    constructor (data: seq<byte>)
      ensures this.data == data && position == 0
    {
      this.data := data;
      position := 0;
    }

    /** The next byte, or -1 at the end. */
    method ReadByte() returns (b: int)
      requires position <= |data|
      modifies this
      ensures old(position) < |data| ==> b == data[old(position)] && position == old(position) + 1
      ensures old(position) == |data| ==> b == -1 && position == old(position)
    {
      if position < |data| {
        b := data[position];
        position := position + 1;
      } else {
        b := -1;
      }
    }
  }

  class BitReader {
    const reader: ByteReader
    var bits: nat
    var bitsLength: nat

    ghost predicate Valid()
      reads this, reader
    {
      && bitsLength < 8
      && reader.position <= |reader.data|
      && (bitsLength > 0 ==> reader.position > 0 && bits == Shr(reader.data[reader.position - 1], 8 - bitsLength))
    }

    /** How many bits have been consumed. */
    ghost function Cursor(): nat
      requires Valid()
      reads this, reader
    {
      8 * reader.position - bitsLength
    }

    constructor (reader: ByteReader)
      requires reader.position <= |reader.data|
      ensures this.reader == reader && Valid() && bitsLength == 0
    {
      this.reader := reader;
      bits := 0;
      bitsLength := 0;
    }

    method ReadBit() returns (r: Result<bool>)
      requires Valid()
      modifies this, reader
      ensures Valid()
      ensures r == PeekBit(reader.data, old(Cursor()))
      ensures Cursor() == old(Cursor()) + if r.Ok? then 1 else 0
    {
      if bitsLength == 0 {
        var nextByte := reader.ReadByte();
        if nextByte < 0 {
          return Throws(UnexpectedEnd);
        }
        bits := nextByte;
        bitsLength := 8;
      }
      CursorBit(reader.data, reader.position, bitsLength);
      r := Ok(bits % 2 != 0);
      bits := bits / 2;
      bitsLength := bitsLength - 1;
    }

    /** Drops the rest of the current byte. */
    method Align()
      requires Valid()
      modifies this
      ensures Valid() && bitsLength == 0
      ensures Cursor() == AlignUp(old(Cursor()))
    {
      bitsLength := 0;
    }

    method ReadLSB(length: nat) returns (r: Result<nat>)
      requires Valid()
      modifies this, reader
      ensures Valid()
      ensures r == PeekLsb(reader.data, old(Cursor()), length)
      ensures r.Ok? ==> Cursor() == old(Cursor()) + length
    {
      var data := 0;
      for i := 0 to length
        invariant Valid()
        invariant Cursor() == old(Cursor()) + i <= 8 * |reader.data|
        invariant data == LsbValue(reader.data, old(Cursor()), i)
      {
        var bit :- ReadBit();
        // `data |= 1 << i`: the bit at i is still clear, so the two forms agree
        if bit {
          data := data + Pow2(i);
        }
      }
      r := Ok(data);
    }
  }

  /** The next multiple of eight. */
  function AlignUp(pos: nat): nat {
    8 * ((pos + 7) / 8)
  }

  /** The reader's low bit is the data bit under the cursor, and shifting exposes the next one. */
  lemma CursorBit(data: seq<byte>, position: nat, bitsLength: nat)
    requires 0 < bitsLength <= 8 && 0 < position <= |data|
    ensures var i := 8 * position - bitsLength;
      && Bit(data, i) == (Shr(data[position - 1], 8 - bitsLength) % 2 == 1)
      && Shr(data[position - 1], 8 - bitsLength) / 2 == Shr(data[position - 1], 8 - (bitsLength - 1))
  {
    var i := 8 * position - bitsLength;
    assert i / 8 == position - 1 && i % 8 == 8 - bitsLength;
    ShrAdd(data[position - 1], 8 - bitsLength, 1);
    assert Shr(Shr(data[position - 1], 8 - bitsLength), 1) == Shr(data[position - 1], 8 - bitsLength) / 2;
  }
}
