/** The interrupt-driven transmit queue of the echo firmware: a 256-byte ring
    filled by `UART_Transmit_Data` in the main loop and drained one byte per
    transmit-complete interrupt, with `txBusy` telling whether a byte is on
    the wire. */
module TxQueue {
  import opened Bytes
  import opened Ring

  /** `TXBUF_SIZE`. */
  const TX_SIZE: nat := 256

  /** `ring` and `busy` are the firmware's `txBuf`/`txHead`/`txTail`/`txBusy`.
      `wire` records every byte handed to `HAL_UART_Transmit_IT`, in order;
      `queued` records every byte `UART_Transmit_Data` accepted into the ring,
      in order. The two logs exist only to state what reaches the wire. */
  datatype Tx = Tx(ring: RingBuf, busy: bool, wire: seq<byte>, queued: seq<byte>)

  /** The queue at reset: empty, idle, nothing sent. */
  function Idle(): (q: Tx)
    ensures Inv(q) && !q.busy && q.wire == [] && q.queued == []
  {
    Tx(EmptyRing(TX_SIZE), false, [], [])
  }

  /** The queue discipline: a byte is in flight exactly when the ring is
      non-empty; the byte in flight is `txBuf[txTail]`, the oldest queued one;
      and the bytes on the wire followed by those still waiting behind it are
      exactly the bytes ever accepted. */
  ghost predicate Inv(q: Tx)
  {
    && q.ring.Valid() && |q.ring.buf| == TX_SIZE
    && (q.busy <==> !IsEmpty(q.ring))
    && (q.busy ==> |q.wire| > 0 && q.wire[|q.wire| - 1] == q.ring.buf[q.ring.tail]
                   && q.wire + Contents(q.ring)[1..] == q.queued)
    && (!q.busy ==> q.wire == q.queued)
  }

  /** The copy loop of `UART_Transmit_Data`: appends the bytes of `s` in order
      and stops at the first byte for which the ring is full, so the bytes
      accepted are the longest prefix of `s` that fits, and no queued byte is
      overwritten. */
  function Enqueue(r: RingBuf, s: seq<byte>): (r': RingBuf)
    requires r.Valid()
    ensures r'.Valid() && |r'.buf| == |r.buf| && r'.tail == r.tail
    ensures Contents(r') == Contents(r) + s[..Min(|s|, Room(r))]
    decreases |s|
  {
    if |s| == 0 then r
    else if IsFull(r) then
      FullIffOneSpare(r);
      r
    else
      FullIffOneSpare(r);
      var r1 := RingBuf(r.buf[r.head := s[0]], Next(r.head, |r.buf|), r.tail);
      AdvanceHead(r, s[0]);
      var r' := Enqueue(r1, s[1..]);
      assert Room(r1) == Room(r) - 1;
      TakeFirst(s, Room(r));
      AppendAssoc(Contents(r), [s[0]], s[1..][..Min(|s| - 1, Room(r1))]);
      r'
  }

  /** `UART_Transmit_Data(s)`: enqueue what fits; if the transmitter was
      idle, mark it busy and start sending the byte at `txTail`. */
  function Transmit(q: Tx, s: seq<byte>): (q': Tx)
    requires q.ring.Valid()
    ensures q'.ring.Valid() && |q'.ring.buf| == |q.ring.buf|
    ensures Contents(q'.ring) == Contents(q.ring) + s[..Min(|s|, Room(q.ring))]
    ensures q'.queued == q.queued + s[..Min(|s|, Room(q.ring))]
    ensures q'.busy
    ensures q.busy ==> q'.wire == q.wire
    ensures !q.busy ==> q'.wire == q.wire + [q'.ring.buf[q'.ring.tail]]
  {
    var r' := Enqueue(q.ring, s);
    var accepted := s[..Min(|s|, Room(q.ring))];
    if q.busy then Tx(r', true, q.wire, q.queued + accepted)
    else Tx(r', true, q.wire + [r'.buf[r'.tail]], q.queued + accepted)
  }

  /** `HAL_UART_TxCpltCallback`: the byte at `txTail` has gone out; advance
      `txTail` and either start the next byte or, if the ring is now empty,
      clear `txBusy`. It only fires while a byte is in flight. */
  function Complete(q: Tx): (q': Tx)
    requires q.ring.Valid() && q.busy
    ensures q'.ring.Valid() && q'.ring.buf == q.ring.buf && q'.ring.head == q.ring.head
    ensures q'.ring.tail == Next(q.ring.tail, |q.ring.buf|)
    ensures q'.queued == q.queued
    ensures q'.busy <==> q'.ring.tail != q'.ring.head
    ensures q'.busy ==> q'.wire == q.wire + [q'.ring.buf[q'.ring.tail]]
    ensures !q'.busy ==> q'.wire == q.wire
  {
    var r' := q.ring.(tail := Next(q.ring.tail, |q.ring.buf|));
    if r'.tail != r'.head then Tx(r', true, q.wire + [r'.buf[r'.tail]], q.queued)
    else Tx(r', false, q.wire, q.queued)
  }

  /** Every caller passes a non-empty literal, and with one the queue
      discipline survives `UART_Transmit_Data`. */
  lemma TransmitKeepsInv(q: Tx, s: seq<byte>)
    requires Inv(q) && |s| > 0
    ensures Inv(Transmit(q, s))
  {
    if q.busy {
      TransmitWhileBusy(q, s);
    } else {
      TransmitWhileIdle(q, s);
    }
  }

  lemma TransmitWhileBusy(q: Tx, s: seq<byte>)
    requires Inv(q) && q.busy
    ensures Inv(Transmit(q, s))
  {
    var q' := Transmit(q, s);
    var accepted := s[..Min(|s|, Room(q.ring))];
    var c := Contents(q.ring);
    EmptyIffNoContents(q.ring);
    EmptyIffNoContents(q'.ring);
    assert Contents(q'.ring) == c + accepted;
    OldestAtTail(q.ring);
    OldestAtTail(q'.ring);
    assert (c + accepted)[1..] == c[1..] + accepted;
    assert q'.wire + Contents(q'.ring)[1..] == (q.wire + c[1..]) + accepted;
  }

  lemma TransmitWhileIdle(q: Tx, s: seq<byte>)
    requires Inv(q) && !q.busy && |s| > 0
    ensures Inv(Transmit(q, s))
  {
    var q' := Transmit(q, s);
    var accepted := s[..Min(|s|, Room(q.ring))];
    assert Contents(q'.ring) == accepted && |accepted| > 0 by {
      EmptyIffNoContents(q.ring);
      assert Contents(q.ring) == [];
    }
    assert !IsEmpty(q'.ring) && q'.ring.buf[q'.ring.tail] == accepted[0] by {
      EmptyIffNoContents(q'.ring);
      OldestAtTail(q'.ring);
    }
    assert q'.wire == q.wire + [accepted[0]];
    assert q'.queued == q.wire + accepted;
    SplitFirst(q.wire, accepted);
  }

  lemma SplitFirst(w: seq<byte>, a: seq<byte>)
    requires |a| > 0
    ensures (w + [a[0]]) + a[1..] == w + a
  {
    assert a == [a[0]] + a[1..];
  }

  /** The transmit-complete interrupt keeps the queue discipline. */
  lemma CompleteKeepsInv(q: Tx)
    requires Inv(q) && q.busy
    ensures Inv(Complete(q))
  {
    var q' := Complete(q);
    var (b, r') := Pop(q.ring);
    assert r' == q'.ring;
    var rest := Contents(r');
    assert Contents(q.ring)[1..] == rest;
    assert q.wire + rest == q.queued;
    EmptyIffNoContents(r');
    if q'.busy {
      OldestAtTail(r');
      SplitFirst(q.wire, rest);
    } else {
      assert rest == [];
      assert q.wire + [] == q.wire;
    }
  }

  /** Why `UART_Transmit_Data` needs a non-empty string: called with `""`
      while idle it marks the transmitter busy with nothing queued and sends
      the stale byte at `txTail`; the completion then moves `txTail` past
      `txHead`, so 255 stale bytes read as queued. */
  lemma EmptyTransmitWhileIdle(q: Tx)
    requires Inv(q) && !q.busy
    ensures var q1 := Transmit(q, []);
            q1.busy && IsEmpty(q1.ring) && !Inv(q1)
            && Count(Complete(q1).ring) == TX_SIZE - 1
  {
    EmptyIffNoContents(q.ring);
  }

  /** Runs `n` transmit-complete interrupts. */
  function CompleteN(q: Tx, n: nat): (q': Tx)
    requires Inv(q)
    ensures Inv(q')
    decreases n
  {
    if n == 0 || !q.busy then q
    else
      CompleteKeepsInv(q);
      CompleteN(Complete(q), n - 1)
  }

  /** Each completion retires exactly one queued byte: fewer completions than
      bytes queued leave the transmitter busy, and exactly that many leave it
      idle with every accepted byte on the wire. */
  lemma {:induction false} CompletionsDrain(q: Tx, n: nat)
    requires Inv(q) && n <= Count(q.ring)
    ensures Count(CompleteN(q, n).ring) == Count(q.ring) - n
    ensures n < Count(q.ring) ==> CompleteN(q, n).busy
    ensures n == Count(q.ring) ==> !CompleteN(q, n).busy && CompleteN(q, n).wire == q.queued
    decreases n
  {
    EmptyIffNoContents(q.ring);
    if n > 0 {
      var (b, r') := Pop(q.ring);
      CompleteKeepsInv(q);
      assert Complete(q).ring == r';
      CompletionsDrain(Complete(q), n - 1);
    }
  }

  /** Sending a message of k bytes (0 < k <= 255) while idle makes exactly one
      `HAL_UART_Transmit_IT` call, keeps `txBusy` set through the first k - 1
      completions, clears it at the k-th, and by then has put exactly the
      message on the wire. */
  lemma IdleSendDelivers(q: Tx, s: seq<byte>)
    requires Inv(q) && !q.busy && 0 < |s| < TX_SIZE
    ensures Inv(Transmit(q, s))
    ensures |Transmit(q, s).wire| == |q.wire| + 1
    ensures forall n :: 0 <= n < |s| ==> CompleteN(Transmit(q, s), n).busy
    ensures !CompleteN(Transmit(q, s), |s|).busy
    ensures CompleteN(Transmit(q, s), |s|).wire == q.wire + s
  {
    var q1 := Transmit(q, s);
    TransmitKeepsInv(q, s);
    EmptyIffNoContents(q.ring);
    assert Min(|s|, Room(q.ring)) == |s|;
    assert s[..|s|] == s;
    assert Count(q1.ring) == |s|;
    forall n | 0 <= n < |s|
      ensures CompleteN(q1, n).busy
    {
      CompletionsDrain(q1, n);
    }
    CompletionsDrain(q1, |s|);
  }

  /** Several `UART_Transmit_Data` calls in a row. */
  function SendAll(q: Tx, msgs: seq<seq<byte>>): (q': Tx)
    requires q.ring.Valid()
    ensures q'.ring.Valid() && |q'.ring.buf| == |q.ring.buf|
    decreases |msgs|
  {
    if |msgs| == 0 then q else SendAll(Transmit(q, msgs[0]), msgs[1..])
  }

  lemma SendOne(q: Tx, a: seq<byte>)
    requires q.ring.Valid()
    ensures SendAll(q, [a]) == Transmit(q, a)
  {
    assert [a][1..] == [];
  }

  lemma SendOneOrTwo(q: Tx, a: seq<byte>, b: seq<byte>)
    requires q.ring.Valid()
    ensures SendAll(q, [a]) == Transmit(q, a)
    ensures SendAll(q, [a, b]) == Transmit(Transmit(q, a), b)
  {
    SendOne(q, a);
    var q1 := Transmit(q, a);
    SendOne(q1, b);
    assert [a, b][0] == a && [a, b][1..] == [b];
    assert SendAll(q, [a, b]) == SendAll(q1, [b]);
  }

  /** The concatenation of a list of messages. */
  function Flatten(msgs: seq<seq<byte>>): (bs: seq<byte>)
    decreases |msgs|
  {
    if |msgs| == 0 then [] else msgs[0] + Flatten(msgs[1..])
  }

  predicate AllNonEmpty(msgs: seq<seq<byte>>)
  {
    forall i :: 0 <= i < |msgs| ==> |msgs[i]| > 0
  }

  lemma {:induction false} SendAllKeepsInv(q: Tx, msgs: seq<seq<byte>>)
    requires Inv(q) && AllNonEmpty(msgs)
    ensures Inv(SendAll(q, msgs))
    decreases |msgs|
  {
    if |msgs| > 0 {
      TransmitKeepsInv(q, msgs[0]);
      SendAllKeepsInv(Transmit(q, msgs[0]), msgs[1..]);
    }
  }

  lemma {:induction false} SendAllAppend(q: Tx, a: seq<seq<byte>>, b: seq<seq<byte>>)
    requires q.ring.Valid()
    ensures SendAll(q, a + b) == SendAll(SendAll(q, a), b)
    decreases |a|
  {
    if |a| == 0 {
      assert a + b == b;
    } else {
      assert (a + b)[1..] == a[1..] + b;
      SendAllAppend(Transmit(q, a[0]), a[1..], b);
    }
  }

  /** A message that fits is accepted whole. */
  lemma TransmitFits(q: Tx, m: seq<byte>)
    requires q.ring.Valid() && |m| <= Room(q.ring)
    ensures Contents(Transmit(q, m).ring) == Contents(q.ring) + m
    ensures Transmit(q, m).queued == q.queued + m
    ensures Room(Transmit(q, m).ring) == Room(q.ring) - |m|
  {
    assert Min(|m|, Room(q.ring)) == |m| && m[..|m|] == m;
  }

  /** When the messages fit in the free slots, none is truncated: the ring
      gains, and the log of accepted bytes records, exactly their bytes in
      order. */
  lemma {:induction false} SendAllFits(q: Tx, msgs: seq<seq<byte>>)
    requires q.ring.Valid() && |Flatten(msgs)| <= Room(q.ring)
    ensures Contents(SendAll(q, msgs).ring) == Contents(q.ring) + Flatten(msgs)
    ensures SendAll(q, msgs).queued == q.queued + Flatten(msgs)
    decreases |msgs|
  {
    if |msgs| == 0 {
      assert Contents(q.ring) + [] == Contents(q.ring);
      assert q.queued + [] == q.queued;
    } else {
      var m, rest := msgs[0], msgs[1..];
      var tail := Flatten(rest);
      assert Flatten(msgs) == m + tail;
      TransmitFits(q, m);
      var q1 := Transmit(q, m);
      assert |tail| <= Room(q1.ring);
      assert SendAll(q, msgs) == SendAll(q1, rest);
      SendAllFits(q1, rest);
      var q2 := SendAll(q1, rest);
      assert Contents(q2.ring) == Contents(q.ring) + m + tail;
      assert q2.queued == q.queued + m + tail;
      AppendAssoc(Contents(q.ring), m, tail);
      AppendAssoc(q.queued, m, tail);
    }
  }

  /** The invariant makes the wire a prefix of the accepted bytes at every
      moment: nothing is sent that was not queued, nor out of order. */
  lemma WireIsPrefixOfQueued(q: Tx)
    requires Inv(q)
    ensures q.wire <= q.queued
  {
    if q.busy {
      assert q.queued == q.wire + Contents(q.ring)[1..];
    }
  }
}
