/** A byte stream over queued messages (msqueue.c). */
module Bufferizers {
  import opened Octets

  /** A chain of blocks; of each block only what is unread. */
  type Message = s: seq<seq<byte>> | |s| > 0 witness [[]]

  function Joined(blocks: seq<seq<byte>>): seq<byte> {
    if blocks == [] then [] else blocks[0] + Joined(blocks[1..])
  }

  function Bytes(q: seq<Message>): seq<byte> {
    if q == [] then [] else Joined(q[0]) + Bytes(q[1..])
  }

  lemma {:induction false} BytesPut(q: seq<Message>, m: Message)
    ensures Bytes(q + [m]) == Bytes(q) + Joined(m)
  {
    if q == [] {
      assert [m][1..] == [];
    } else {
      BytesPut(q[1..], m);
      assert (q + [m])[1..] == q[1..] + [m];
    }
  }

  ghost predicate Exhausted(blocks: seq<seq<byte>>, k: nat) {
    k <= |blocks| && forall i :: 0 <= i < k ==> blocks[i] == []
  }

  /** Reading c bytes from the first block that may hold any. */
  lemma {:induction false} Advance(blocks: seq<seq<byte>>, k: nat, c: nat)
    requires k < |blocks| && Exhausted(blocks, k) && c <= |blocks[k]|
    ensures Joined(blocks) == blocks[k][..c] + Joined(blocks[k := blocks[k][c..]])
  {
    var after := blocks[k := blocks[k][c..]];
    if k == 0 {
      assert after[1..] == blocks[1..];
    } else {
      Advance(blocks[1..], k - 1, c);
      assert after[1..] == blocks[1..][k - 1 := blocks[k][c..]];
    }
  }

  lemma {:induction false} NothingLeft(blocks: seq<seq<byte>>)
    requires Exhausted(blocks, |blocks|)
    ensures Joined(blocks) == []
  {
    if blocks != [] {
      NothingLeft(blocks[1..]);
    }
  }

  /** Some bytes move from what is left to what was read. */
  lemma MoveOver(all: seq<byte>, sz: nat, x: seq<byte>, rest: seq<byte>)
    requires sz <= |all| && all == all[..sz] + (x + rest)
    ensures sz + |x| <= |all| && all[..sz + |x|] == all[..sz] + x && all == all[..sz + |x|] + rest
  {
    assert all == (all[..sz] + x) + rest;
  }

  lemma CopyOver(front: seq<byte>, x: seq<byte>, was: seq<byte>, before: seq<byte>, after: seq<byte>)
    requires |front| + |x| <= |was| && before == front + was[|front|..]
    requires after == before[..|front|] + x + before[|front| + |x|..]
    ensures after == (front + x) + was[|front| + |x|..]
  {
    assert before[..|front|] == front;
    assert before[|front| + |x|..] == was[|front|..][|x|..] == was[|front| + |x|..];
  }

  /** memcpy into an array. */
  method CopyInto(data: array<byte>, at: nat, x: seq<byte>)
    requires at + |x| <= data.Length
    modifies data
    ensures data[..] == old(data[..])[..at] + x + old(data[..])[at + |x|..]
  {
    forall i | 0 <= i < |x| {
      data[at + i] := x[i];
    }
    ghost var after := old(data[..])[..at] + x + old(data[..])[at + |x|..];
    assert forall i :: 0 <= i < data.Length ==> data[i] == after[i];
  }

  lemma AdvanceInQueue(q: seq<Message>, k: nat, c: nat)
    requires q != [] && k < |q[0]| && Exhausted(q[0], k) && c <= |q[0][k]|
    ensures Bytes(q) == q[0][k][..c] + Bytes([q[0][k := q[0][k][c..]]] + q[1..])
    ensures Exhausted(q[0][k := q[0][k][c..]], k)
  {
    hide Joined, Bytes, Exhausted;
    Advance(q[0], k, c);
    var head, x := q[0][k := q[0][k][c..]], q[0][k][..c];
    StillExhausted(q[0], k, q[0][k][c..]);
    FirstMessage(q);
    FirstMessage([head] + q[1..]);
    assert ([head] + q[1..])[1..] == q[1..];
    assert (x + Joined(head)) + Bytes(q[1..]) == x + (Joined(head) + Bytes(q[1..]));
  }

  lemma StillExhausted(blocks: seq<seq<byte>>, k: nat, rest: seq<byte>)
    requires k < |blocks| && Exhausted(blocks, k)
    ensures Exhausted(blocks[k := rest], k)
  {
  }

  lemma FirstMessage(q: seq<Message>)
    requires q != []
    ensures Bytes(q) == Joined(q[0]) + Bytes(q[1..])
  {
  }

  /** In the middle of a read: some bytes have been copied, and the rest is still queued. */
  ghost predicate Copying(all: seq<byte>, was: seq<byte>, sz: nat, q: seq<Message>, data: seq<byte>) {
    sz <= |all| && sz <= |was| && all == all[..sz] + Bytes(q) && data == all[..sz] + was[sz..]
  }

  lemma CopyStarts(was: seq<byte>, q: seq<Message>)
    ensures Copying(Bytes(q), was, 0, q, was)
  {
  }

  lemma CopyStep(all: seq<byte>, was: seq<byte>, sz: nat, q: seq<Message>, data: seq<byte>, k: nat, c: nat,
      data': seq<byte>)
    requires Copying(all, was, sz, q, data) && q != [] && k < |q[0]| && Exhausted(q[0], k) && c <= |q[0][k]|
             && sz + c <= |was| == |data|
    requires data' == data[..sz] + q[0][k][..c] + data[sz + c..]
    ensures Copying(all, was, sz + c, [q[0][k := q[0][k][c..]]] + q[1..], data')
    ensures Exhausted(q[0][k := q[0][k][c..]], k)
  {
    AdvanceInQueue(q, k, c);
    MoveOver(all, sz, q[0][k][..c], Bytes([q[0][k := q[0][k][c..]]] + q[1..]));
    CopyOver(all[..sz], q[0][k][..c], was, data, data');
  }

  /** In the middle of a read of so many bytes: where the next of them is. */
  ghost predicate Reading(all: seq<byte>, was: seq<byte>, sz: nat, q: seq<Message>, data: seq<byte>, k: nat,
      datalen: nat) {
    && Copying(all, was, sz, q, data) && sz <= datalen <= |all|
    && (sz < datalen ==> q != [] && k < |q[0]| && Exhausted(q[0], k))
  }

  lemma CopyGoesOn(all: seq<byte>, was: seq<byte>, sz: nat, q: seq<Message>, data: seq<byte>, datalen: nat)
    requires Copying(all, was, sz, q, data) && sz <= datalen <= |all|
    ensures Reading(all, was, sz, q, data, 0, datalen)
  {
  }

  /** After a copy: on in the same block, in the next block, or in the next message. */
  lemma ReadingStep(all: seq<byte>, was: seq<byte>, sz: nat, q: seq<Message>, data: seq<byte>, k: nat, c: nat,
                    q': seq<Message>, data': seq<byte>, datalen: nat)
    requires Reading(all, was, sz, q, data, k, datalen) && sz < datalen && datalen <= |was| == |data|
    requires c == (if |q[0][k]| < datalen - sz then |q[0][k]| else datalen - sz)
    requires data' == data[..sz] + q[0][k][..c] + data[sz + c..] && q' == [q[0][k := q[0][k][c..]]] + q[1..]
    ensures |q'| == |q| && |q'[0]| == |q[0]|
    ensures c < |q[0][k]| ==> Reading(all, was, sz + c, q', data', k, datalen)
    ensures c == |q[0][k]| && k + 1 < |q[0]| ==> Reading(all, was, sz + c, q', data', k + 1, datalen)
    ensures c == |q[0][k]| && k + 1 == |q[0]| ==> Reading(all, was, sz + c, q'[1..], data', 0, datalen)
  {
    hide Copying, Exhausted, Bytes, Joined;
    CopyStep(all, was, sz, q, data, k, c, data');
    var head := q[0][k := q[0][k][c..]];
    assert q' == [head] + q[1..] && q'[0] == head && q'[1..] == q[1..];
    if c == |q[0][k]| {
      assert head[k] == [];
      OneMoreExhausted(all, was, sz + c, q', data', k);
      if k + 1 == |q[0]| {
        CopyGoesOn(all, was, sz + c, q'[1..], data', datalen);
      }
    }
  }

  lemma ReadingHas(all: seq<byte>, was: seq<byte>, sz: nat, q: seq<Message>, data: seq<byte>, k: nat, datalen: nat)
    requires Reading(all, was, sz, q, data, k, datalen)
    ensures sz <= datalen && (sz < datalen ==> q != [] && k < |q[0]|)
            && (sz == datalen ==> Copying(all, was, sz, q, data))
  {
    hide Copying;
  }

  lemma CopyDone(all: seq<byte>, was: seq<byte>, n: nat, q: seq<Message>, data: seq<byte>)
    requires Copying(all, was, n, q, data)
    ensures Bytes(q) == all[n..] && |Bytes(q)| == |all| - n && data == all[..n] + was[n..]
  {
  }

  lemma OneMoreExhausted(all: seq<byte>, was: seq<byte>, sz: nat, q: seq<Message>, data: seq<byte>, k: nat)
    requires Copying(all, was, sz, q, data)
    requires q != [] && k < |q[0]| && Exhausted(q[0], k) && q[0][k] == []
    ensures k + 1 < |q[0]| ==> Exhausted(q[0], k + 1)
    ensures k + 1 == |q[0]| ==> Copying(all, was, sz, q[1..], data)
  {
    if k + 1 == |q[0]| {
      NothingLeft(q[0]);
      assert [] + Bytes(q[1..]) == Bytes(q[1..]);
    }
  }

  class Bufferizer {
    var q: seq<Message>
    var size: int

    constructor ()
      ensures Valid() && Contents() == []
    {
      q, size := [], 0;
    }

    /** The unread bytes. */
    ghost function Contents(): seq<byte>
      reads this
    {
      Bytes(q)
    }

    ghost predicate Valid()
      reads this
    {
      size == |Contents()|
    }

    method Put(m: Message)
      requires Valid()
      modifies this
      ensures Valid() && Contents() == old(Contents()) + Joined(m)
    {
      BytesPut(q, m);
      size := size + MessageSize(m);
      q := q + [m];
    }

    method PutFromQueue(messages: seq<Message>)
      requires Valid()
      modifies this
      ensures Valid() && Contents() == old(Contents()) + Bytes(messages)
    {
      for i := 0 to |messages|
        invariant Valid() && Contents() == old(Contents()) + Bytes(messages[..i])
      {
        BytesPut(messages[..i], messages[i]);
        assert messages[..i + 1] == messages[..i] + [messages[i]];
        Put(messages[i]);
      }
      assert messages[..|messages|] == messages;
    }

    /** All of the bytes asked for, in order, or none. */
    method Read(data: array<byte>, datalen: nat) returns (n: nat)
      requires Valid() && datalen <= data.Length
      modifies this, data
      ensures Valid()
      ensures n == if datalen <= |old(Contents())| then datalen else 0
      ensures Contents() == old(Contents())[n..]
      ensures data[..n] == old(Contents())[..n] && data[n..] == old(data[n..])
    {
      if size < datalen {
        return 0;
      }
      Take(data, datalen);
      return datalen;
    }

    /** One round of the copy loop: what is wanted of a block, and on to the next block or message when it is used
        up. */
    method TakeFromBlock(data: array<byte>, sz: nat, k: nat, datalen: nat, ghost all: seq<byte>, ghost was: seq<byte>)
      returns (sz': nat, k': nat)
      requires Reading(all, was, sz, q, data[..], k, datalen) && sz < datalen <= |was| == data.Length && q != []
               && k < |q[0]|
      modifies this`q, data
      ensures Reading(all, was, sz', q, data[..], k', datalen)
      ensures sz < sz' || (sz == sz' && (|q| < |old(q)| || (|q| == |old(q)| && |q[0]| - k' < |old(q)[0]| - k)))
    {
      hide *;
      var b := q[0][k];
      var cplen := if |b| < datalen - sz then |b| else datalen - sz;
      ghost var before, q0 := data[..], q;
      CopyInto(data, sz, b[..cplen]);
      q := [q[0][k := b[cplen..]]] + q[1..];
      sz', k' := sz + cplen, k;
      ReadingStep(all, was, sz, q0, before, k, cplen, q, data[..], datalen);
      if cplen == |b| {
        if k + 1 < |q[0]| {
          k' := k + 1;
        } else {
          q, k' := q[1..], 0;
        }
      }
    }

    /** The copy loop, when there are enough bytes. */
    method Take(data: array<byte>, datalen: nat)
      requires Valid() && datalen <= data.Length && datalen <= |Contents()|
      modifies this, data
      ensures Valid() && Contents() == old(Contents())[datalen..]
      ensures data[..] == old(Contents())[..datalen] + old(data[..])[datalen..]
    {
      hide *;
      ghost var all, was := Contents(), data[..];
      ContentsAre();
      var sz: nat, k: nat := 0, 0;
      CopyStarts(was, q);
      CopyGoesOn(all, was, sz, q, was, datalen);
      ReadingHas(all, was, sz, q, was, k, datalen);
      while sz < datalen
        invariant Reading(all, was, sz, q, data[..], k, datalen) && size == |all|
        invariant sz <= datalen && (sz < datalen ==> q != [] && k < |q[0]|)
        decreases datalen - sz, |q|, if q == [] then 0 else |q[0]| - k
      {
        sz, k := TakeFromBlock(data, sz, k, datalen, all, was);
        ReadingHas(all, was, sz, q, data[..], k, datalen);
      }
      ReadingHas(all, was, sz, q, data[..], k, datalen);
      CopyDone(all, was, datalen, q, data[..]);
      size := size - datalen;
      ContentsAre();
    }

    lemma ContentsAre()
      ensures Contents() == Bytes(q) && (Valid() <==> size == |Bytes(q)|)
    {
    }
  }

  function MessageSize(m: seq<seq<byte>>): (n: nat)
    ensures n == |Joined(m)|
  {
    if m == [] then 0 else |m[0]| + MessageSize(m[1..])
  }
}
