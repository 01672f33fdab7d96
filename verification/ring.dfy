/** The fixed-capacity single-producer/single-consumer byte ring used by the
    receive paths (128 bytes) and by the transmit queue (256 bytes).

    `head` is the next free slot (advanced only by the producer), `tail` the
    oldest unread byte (advanced only by the consumer); the ring is empty
    when they are equal. The checked push keeps one slot spare so that a full
    ring is told apart from an empty one. */
module Ring {
  import opened Bytes

  datatype RingBuf = RingBuf(buf: seq<byte>, head: nat, tail: nat)
  {
    ghost predicate Valid() {
      |buf| >= 2 && head < |buf| && tail < |buf|
    }
  }

  /** The index after `i` in an n-slot array, wrapping to 0. */
  function Next(i: nat, n: nat): (j: nat)
    requires i < n
    ensures j < n
  {
    if i + 1 == n then 0 else i + 1
  }

  /** `Next` is the firmware's `(i + 1) % n`. */
  lemma NextIsMod(i: nat, n: nat)
    requires i < n
    ensures Next(i, n) == (i + 1) % n
  {
    if i + 1 < n {
      assert (i + 1) % n == i + 1;
    }
  }

  /** A ring of `n` zeroed slots with both indices at 0, as after reset. */
  function EmptyRing(n: nat): (r: RingBuf)
    requires n >= 2
    ensures r.Valid() && |r.buf| == n
    ensures IsEmpty(r) && Contents(r) == []
  {
    RingBuf(seq(n, _ => 0), 0, 0)
  }

  /** Number of unread bytes. */
  function Count(r: RingBuf): (c: nat)
    requires r.Valid()
    ensures c < |r.buf|
  {
    if r.tail <= r.head then r.head - r.tail else r.head + |r.buf| - r.tail
  }

  /** The array slot that holds the i-th unread byte. */
  function Slot(r: RingBuf, i: nat): (k: nat)
    requires r.Valid() && i < |r.buf|
    ensures k < |r.buf|
  {
    if r.tail + i < |r.buf| then r.tail + i else r.tail + i - |r.buf|
  }

  /** The unread bytes, oldest first: `buf[tail], buf[tail+1], ..., buf[head-1]`
      taken modulo the capacity. */
  function Contents(r: RingBuf): (s: seq<byte>)
    requires r.Valid()
    ensures |s| == Count(r)
  {
    seq(Count(r), i requires 0 <= i < Count(r) => r.buf[Slot(r, i)])
  }

  predicate IsEmpty(r: RingBuf)
  {
    r.head == r.tail
  }

  /** Advancing `head` would make it collide with `tail`. */
  predicate IsFull(r: RingBuf)
    requires r.Valid()
  {
    Next(r.head, |r.buf|) == r.tail
  }

  lemma EmptyIffNoContents(r: RingBuf)
    requires r.Valid()
    ensures IsEmpty(r) <==> Count(r) == 0
  {
  }

  lemma FullIffOneSpare(r: RingBuf)
    requires r.Valid()
    ensures IsFull(r) <==> Count(r) == |r.buf| - 1
  {
  }

  /** The oldest unread byte is the one at `tail`. */
  lemma OldestAtTail(r: RingBuf)
    requires r.Valid() && !IsEmpty(r)
    ensures Count(r) > 0 && Contents(r)[0] == r.buf[r.tail]
  {
  }

  /** No unread byte lives in the slot `head` points at. */
  lemma HeadSlotIsSpare(r: RingBuf, i: nat)
    requires r.Valid() && i < Count(r)
    ensures Slot(r, i) != r.head
  {
  }

  /** The byte stored at `head` becomes the newest unread byte once `head`
      advances, and every older byte keeps its place. */
  lemma AdvanceHead(r: RingBuf, b: byte)
    requires r.Valid() && Count(r) < |r.buf| - 1
    ensures var r' := RingBuf(r.buf[r.head := b], Next(r.head, |r.buf|), r.tail);
            r'.Valid() && Contents(r') == Contents(r) + [b]
  {
    var r' := RingBuf(r.buf[r.head := b], Next(r.head, |r.buf|), r.tail);
    assert Count(r') == Count(r) + 1;
    forall i | 0 <= i < Count(r')
      ensures Contents(r')[i] == (Contents(r) + [b])[i]
    {
      if i < Count(r) {
        HeadSlotIsSpare(r, i);
        assert Slot(r', i) == Slot(r, i);
      } else {
        assert Slot(r', i) == r.head;
      }
    }
  }

  /** Writing into the spare slot at `head` without advancing leaves the
      unread bytes as they were. */
  lemma WriteSpareSlot(r: RingBuf, b: byte)
    requires r.Valid()
    ensures var r' := r.(buf := r.buf[r.head := b]);
            r'.Valid() && Contents(r') == Contents(r)
  {
    var r' := r.(buf := r.buf[r.head := b]);
    forall i | 0 <= i < Count(r)
      ensures Contents(r')[i] == Contents(r)[i]
    {
      HeadSlotIsSpare(r, i);
    }
  }

  /** Receive callback of the interrupt-driven echo firmware
      (`HAL_UART_RxCpltCallback`): the byte is always stored at `head`, but
      `head` advances only when that would not reach `tail`, so on a full
      ring the newest byte is dropped and no unread byte is overwritten. */
  function Push(r: RingBuf, b: byte): (r': RingBuf)
    requires r.Valid()
    ensures r'.Valid() && |r'.buf| == |r.buf| && r'.tail == r.tail
    ensures !IsFull(r) ==> r'.head == Next(r.head, |r.buf|) && Contents(r') == Contents(r) + [b]
    ensures IsFull(r) ==> r'.head == r.head && Contents(r') == Contents(r)
  {
    var buf' := r.buf[r.head := b];
    var nextHead := Next(r.head, |r.buf|);
    if nextHead != r.tail then
      AdvanceHead(r, b);
      RingBuf(buf', nextHead, r.tail)
    else
      WriteSpareSlot(r, b);
      RingBuf(buf', r.head, r.tail)
  }

  /** Receive callback of the command-line firmware: the byte is stored at
      `head` and `head` always advances, with no full check. Below capacity
      this appends the byte; when 127 bytes are unread, the 128th makes
      `head == tail` and the whole backlog reads as empty. */
  function PushUnchecked(r: RingBuf, b: byte): (r': RingBuf)
    requires r.Valid()
    ensures r'.Valid() && |r'.buf| == |r.buf| && r'.tail == r.tail
    ensures r'.head == Next(r.head, |r.buf|)
    ensures Count(r) < |r.buf| - 1 ==> Contents(r') == Contents(r) + [b]
    ensures Count(r) == |r.buf| - 1 ==> IsEmpty(r') && Contents(r') == []
  {
    if Count(r) < |r.buf| - 1 then AdvanceHead(r, b); RingBuf(r.buf[r.head := b], Next(r.head, |r.buf|), r.tail)
    else RingBuf(r.buf[r.head := b], Next(r.head, |r.buf|), r.tail)
  }

  /** One step of the consumer's drain loop: read `buf[tail]` and advance
      `tail`. It yields the oldest unread byte and leaves the rest in order. */
  function Pop(r: RingBuf): (res: (byte, RingBuf))
    requires r.Valid() && !IsEmpty(r)
    ensures res.1.Valid() && res.1.buf == r.buf && res.1.head == r.head
    ensures res.1.tail == Next(r.tail, |r.buf|)
    ensures Contents(r) == [res.0] + Contents(res.1)
  {
    var r' := r.(tail := Next(r.tail, |r.buf|));
    assert Count(r') == Count(r) - 1;
    assert forall i | 0 <= i < Count(r') :: Slot(r', i) == Slot(r, i + 1);
    (r.buf[r.tail], r')
  }

  /** The consumer jumping `tail` to `head` after reading every unread byte. */
  function Discard(r: RingBuf): (r': RingBuf)
    requires r.Valid()
    ensures r'.Valid() && IsEmpty(r') && r'.buf == r.buf && r'.head == r.head
  {
    r.(tail := r.head)
  }

  /** An interleaving of producer and consumer steps on one ring. */
  datatype RingOp = PushOp(b: byte) | PopOp

  /** Applies `ops` with the checked push, returning the final ring, the
      bytes the consumer popped, and the bytes the producer got accepted. */
  function RunOps(r: RingBuf, ops: seq<RingOp>): (res: (RingBuf, seq<byte>, seq<byte>))
    requires r.Valid()
    ensures res.0.Valid() && |res.0.buf| == |r.buf|
    decreases |ops|
  {
    if |ops| == 0 then (r, [], [])
    else
      match ops[0]
      case PushOp(b) =>
        var accepted := if IsFull(r) then [] else [b];
        var res := RunOps(Push(r, b), ops[1..]);
        (res.0, res.1, accepted + res.2)
      case PopOp =>
        if IsEmpty(r) then RunOps(r, ops[1..])
        else
          var (b, r') := Pop(r);
          var res := RunOps(r', ops[1..]);
          (res.0, [b] + res.1, res.2)
  }

  /** FIFO, at-most-once delivery: whatever the interleaving, the bytes
      delivered followed by those still unread are exactly the bytes that
      were unread at the start followed by the accepted pushes, in order.
      No byte is reordered, duplicated or invented; only rejected pushes
      are lost. */
  lemma {:induction false} RingIsFifo(r: RingBuf, ops: seq<RingOp>)
    requires r.Valid()
    ensures RunOps(r, ops).1 + Contents(RunOps(r, ops).0) == Contents(r) + RunOps(r, ops).2
    decreases |ops|
  {
    if |ops| > 0 {
      var rest := ops[1..];
      if ops[0].PushOp? {
        var b := ops[0].b;
        var p := Push(r, b);
        RingIsFifo(p, rest);
        var res := RunOps(p, rest);
        if IsFull(r) {
          assert RunOps(r, ops) == (res.0, res.1, [] + res.2);
          assert [] + res.2 == res.2;
        } else {
          assert RunOps(r, ops) == (res.0, res.1, [b] + res.2);
          AppendAssoc(Contents(r), [b], res.2);
        }
      } else if !IsEmpty(r) {
        var (b, r') := Pop(r);
        RingIsFifo(r', rest);
        var res := RunOps(r', rest);
        assert RunOps(r, ops) == (res.0, [b] + res.1, res.2);
        AppendAssoc([b], res.1, Contents(res.0));
      } else {
        RingIsFifo(r, rest);
      }
    }
  }

  lemma AppendAssoc(a: seq<byte>, b: seq<byte>, c: seq<byte>)
    ensures a + b + c == a + (b + c)
  {
  }

  function Min(a: nat, b: nat): nat
  {
    if a <= b then a else b
  }

  /** The first `n` bytes of a burst (or all of it) are its first byte and
      then the first `n - 1` of the rest. */
  lemma TakeFirst(bs: seq<byte>, n: nat)
    requires |bs| > 0 && n > 0
    ensures bs[..Min(|bs|, n)] == [bs[0]] + bs[1..][..Min(|bs| - 1, n - 1)]
  {
    var k := Min(|bs| - 1, n - 1);
    assert Min(|bs|, n) == k + 1;
    assert bs[..k + 1] == [bs[0]] + bs[1..][..k];
  }

  /** Free slots: the capacity minus the spare slot minus the unread bytes. */
  function Room(r: RingBuf): (n: nat)
    requires r.Valid()
    ensures n < |r.buf|
  {
    |r.buf| - 1 - Count(r)
  }

  /** Pushes `bs` one at a time with the checked push, as a burst of receive
      interrupts with no consumer step in between. */
  function PushAll(r: RingBuf, bs: seq<byte>): (r': RingBuf)
    requires r.Valid()
    ensures r'.Valid() && |r'.buf| == |r.buf| && r'.tail == r.tail
    decreases |bs|
  {
    if |bs| == 0 then r else PushAll(Push(r, bs[0]), bs[1..])
  }

  /** Drop-newest: a burst with no pops keeps the longest prefix of itself
      that fits in the free slots, after the bytes already unread; every byte
      beyond that is refused and no unread byte is lost. */
  lemma {:induction false} BurstKeepsOldest(r: RingBuf, bs: seq<byte>)
    requires r.Valid()
    ensures Contents(PushAll(r, bs)) == Contents(r) + bs[..Min(|bs|, Room(r))]
    decreases |bs|
  {
    if |bs| > 0 {
      var p := Push(r, bs[0]);
      assert PushAll(r, bs) == PushAll(p, bs[1..]);
      BurstKeepsOldest(p, bs[1..]);
      FullIffOneSpare(r);
      if IsFull(r) {
        assert Contents(p) == Contents(r) && Room(p) == 0;
        assert Min(|bs|, Room(r)) == 0 && Min(|bs| - 1, Room(p)) == 0;
        assert Contents(r) + [] == Contents(r);
      } else {
        assert Contents(p) == Contents(r) + [bs[0]];
        assert Room(p) == Room(r) - 1;
        TakeFirst(bs, Room(r));
        AppendAssoc(Contents(r), [bs[0]], bs[1..][..Min(|bs| - 1, Room(p))]);
      }
    }
  }

  /** Pushes `bs` one at a time with the unchecked push. */
  function PushAllUnchecked(r: RingBuf, bs: seq<byte>): (r': RingBuf)
    requires r.Valid()
    ensures r'.Valid() && |r'.buf| == |r.buf| && r'.tail == r.tail
    decreases |bs|
  {
    if |bs| == 0 then r else PushAllUnchecked(PushUnchecked(r, bs[0]), bs[1..])
  }

  /** Without the full check, a burst that keeps the unread count below the
      capacity is appended in order, but the push that brings the count to
      the capacity puts `head` back onto `tail`: the buffer reads as empty
      and every unread byte is lost to the consumer. From an empty 128-byte
      ring, 128 pushes with no pop leave nothing to read. */
  lemma {:induction false} UncheckedBurstWraps(r: RingBuf, bs: seq<byte>)
    requires r.Valid()
    requires Count(r) + |bs| <= |r.buf|
    ensures Count(r) + |bs| < |r.buf| ==> Contents(PushAllUnchecked(r, bs)) == Contents(r) + bs
    ensures Count(r) + |bs| == |r.buf| ==> IsEmpty(PushAllUnchecked(r, bs))
    decreases |bs|
  {
    if |bs| == 0 {
      assert Contents(r) + bs == Contents(r);
      EmptyIffNoContents(r);
    } else {
      var p := PushUnchecked(r, bs[0]);
      if Count(r) + |bs| == |r.buf| && |bs| == 1 {
        assert PushAllUnchecked(r, bs) == PushAllUnchecked(p, []);
      } else {
        assert Count(p) == Count(r) + 1;
        UncheckedBurstWraps(p, bs[1..]);
        assert Contents(r) + [bs[0]] + bs[1..] == Contents(r) + bs;
      }
    }
  }
}
