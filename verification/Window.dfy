/** Why the trimmed output buffer of deflate.js loses nothing: every item appends to a long enough
    end of the history what it appends to the whole history. */
module Window {
  import opened Octets
  import opened Powers
  import opened Results
  import opened BitStreams
  import opened Inflate

  const WINDOW: nat := 0x8000

  /** What is left after the trimmed part is either everything or at least a window long. */
  ghost predicate LongEnough(trimmed: seq<Cell>, buffer: seq<Cell>) {
    trimmed == [] || |buffer| >= WINDOW
  }

  ghost predicate Bounded(item: Item) {
    match item
    case StoredItem(bytes) => |bytes| <= 0xFFFF
    case Copy(Some(distance), length) => 1 <= distance <= WINDOW && 3 <= length <= 258
    case Copy(None, length) => 3 <= length <= 258
    case _ => true
  }

  lemma DistanceTable(c: nat)
    requires c < |DISTANCE_START|
    ensures 1 <= DISTANCE_START[c] && DISTANCE_START[c] + Pow2(DISTANCE_ADDITIONAL_BITS[c]) <= WINDOW + 1
  {
    PowersOfTwo();
  }

  /** No stream, however malformed, can ask for more than a window. */
  lemma ItemsAreBounded(data: seq<byte>, d: Decoder)
    requires ValidDecoder(data, d)
    ensures match DecodeItem(data, d)
      case Ok((Some(item), _)) => Bounded(item)
      case _ => true
  {
    hide ReadItem, ReadStored, BlockTrees;
    if d.state == 1 {
      BlockItemsAreBounded(d.trees, data, d.pos);
    } else if d.state == 0 {
      StoredItemsAreBounded(data, d.pos + 3);
      var blockType := PeekLsb(data, d.pos + 1, 2);
      if blockType.Ok? {
        var r := BlockTrees(blockType.value, data, d.pos + 3);
        if r.Ok? {
          BlockItemsAreBounded(r.value.0, data, r.value.1);
        }
      }
    }
  }

  lemma StoredItemsAreBounded(data: seq<byte>, pos: nat)
    ensures match ReadStored(data, pos)
      case Ok((item, _)) => Bounded(item)
      case _ => true
  {
    hide LsbValue, AndNot;
    var start := AlignUp(pos);
    if start + 16 <= 8 * |data| {
      LsbBound(data, start, 16);
      PowersOfTwo();
    }
  }

  lemma BlockItemsAreBounded(trees: Trees, data: seq<byte>, pos: nat)
    ensures match ReadItem(trees, data, pos)
      case Ok((item, _)) => Bounded(item)
      case _ => true
  {
    forall c: nat | c < |LENGTH_START|
      ensures 3 <= LENGTH_START[c] && LENGTH_START[c] + Pow2(LENGTH_ADDITIONAL_BITS[c]) <= 259
    {
    }
    forall c: nat | c < |DISTANCE_START|
      ensures 1 <= DISTANCE_START[c] && DISTANCE_START[c] + Pow2(DISTANCE_ADDITIONAL_BITS[c]) <= WINDOW + 1
    {
      DistanceTable(c);
    }
  }

  /** Copying within the window appends the same cells as copying within the whole history. */
  lemma {:induction false} CopyInWindow(trimmed: seq<Cell>, buffer: seq<Cell>, distance: nat, n: nat)
    requires 1 <= distance && (trimmed == [] || distance <= |buffer|)
    ensures CopyFrom(trimmed + buffer, |trimmed| + |buffer| - distance, n)
         == trimmed + CopyFrom(buffer, |buffer| - distance, n)
    decreases n
  {
    if n > 0 {
      var cell := At(buffer, |buffer| - distance);
      assert At(trimmed + buffer, |trimmed| + |buffer| - distance) == cell;
      assert (trimmed + buffer) + [cell] == trimmed + (buffer + [cell]);
      CopyInWindow(trimmed, buffer + [cell], distance, n - 1);
    }
  }

  /** Every item does to the buffer what it does to the history. */
  lemma ApplyInWindow(trimmed: seq<Cell>, buffer: seq<Cell>, item: Item)
    requires LongEnough(trimmed, buffer) && Bounded(item)
    ensures Apply(trimmed + buffer, item) == trimmed + Apply(buffer, item)
    ensures |buffer| <= |Apply(buffer, item)| <= |buffer| + 0xFFFF
  {
    hide CopyFrom;
    match item
    case Copy(Some(distance), length) =>
      CopyInWindow(trimmed, buffer, distance, length);
    case StoredItem(bytes) =>
      assert (trimmed + buffer) + Bytes(bytes) == trimmed + (buffer + Bytes(bytes));
    case Symbol(symbol) =>
      assert (trimmed + buffer) + [Byte(symbol)] == trimmed + (buffer + [Byte(symbol)]);
    case Copy(None, length) =>
      var cells := seq(length, _ => Undefined);
      assert (trimmed + buffer) + cells == trimmed + (buffer + cells);
    case EndOfBlock =>
  }

  /** Trimming moves cells, and nothing else. */
  lemma Trim(trimmed: seq<Cell>, buffer: seq<Cell>, shift: nat)
    requires shift <= |buffer|
    ensures (trimmed + buffer[..shift]) + buffer[shift..] == trimmed + buffer
  {
  }
}
