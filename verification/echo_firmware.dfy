/** The STM32F030 side of the STM32/ESP32 link: received bytes go through a
    checked 128-byte ring to the main loop, which frames them into lines,
    answers each line, and sends a status line every three seconds; all
    output goes through the interrupt-driven transmit queue.

    Each interrupt or main-loop phase is one atomic event applied to an
    `Echo` record. */
module EchoFirmware {
  import opened Bytes
  import opened Ring
  import opened Framer
  import opened TxQueue

  /** `RXBUF_SIZE`. */
  const RX_SIZE: nat := 128

  /** The status and LED periods, in milliseconds. */
  const STATUS_PERIOD: nat := 3000
  const BLINK_PERIOD: nat := 500

  const HEARTBEAT: seq<byte> := Ascii("Heartbeat")
  const HEARTBEAT_REPLY: seq<byte> := HEARTBEAT + CRLF
  const ECHO_SENT: seq<byte> := Ascii("Echo Sent\r\n")
  const TOO_LONG: seq<byte> := Ascii("Error: Msg too long\r\n")
  const STATUS_OK: seq<byte> := Ascii("Status: OK\r\n")
  const READY: seq<byte> := Ascii("STM32 Ready\r\n")

  /** `rxBuf`/`rxHead`/`rxTail`, the line buffer up to `messageIndex`, the
      transmit queue, the two `static` timestamps of the main loop, and the
      LED on PA5. */
  datatype Echo = Echo(rx: RingBuf, line: seq<byte>, tx: Tx, lastSend: u32, lastToggle: u32, led: bool)

  datatype EchoEvent =
    | RxByte(b: byte)   // receive-complete interrupt
    | TxDone            // transmit-complete interrupt
    | Poll              // the main loop's drain of the receive ring
    | Tick(now: u32)    // the main loop's two timer checks at `HAL_GetTick() == now`

  ghost predicate Inv(s: Echo)
  {
    && s.rx.Valid() && |s.rx.buf| == RX_SIZE
    && Partial(s.line)
    && TxQueue.Inv(s.tx)
  }

  /** After reset: the LED is driven low and blinks on and off again, both
      timestamps are 0, nothing has been received, and the ready banner is
      queued with its first byte in flight. */
  function Init(): (s: Echo)
    ensures Inv(s)
    ensures IsEmpty(s.rx) && s.line == [] && !s.led && s.lastSend == 0 && s.lastToggle == 0
    ensures s.tx.busy && s.tx.queued == READY && |s.tx.wire| == 1
  {
    assert |READY| == 13;
    TransmitKeepsInv(Idle(), READY);
    Echo(EmptyRing(RX_SIZE), [], Transmit(Idle(), READY), 0, 0, false)
  }

  /** The strings the dispatcher hands to `UART_Transmit_Data` for a
      completed line. The comparison is `strcmp` on the null-terminated
      buffer, so it sees the line up to its first NUL. */
  function Replies(line: seq<byte>): (rs: seq<seq<byte>>)
    ensures 1 <= |rs| <= 2 && rs[|rs| - 1] == ECHO_SENT
    ensures |rs| == 2 <==> CString(line) == HEARTBEAT
    ensures |rs| == 2 ==> rs[0] == HEARTBEAT_REPLY
  {
    if CString(line) == HEARTBEAT then [HEARTBEAT_REPLY, ECHO_SENT] else [ECHO_SENT]
  }

  /** The strings sent for one framer event. */
  function EventReplies(e: Event): (rs: seq<seq<byte>>)
    ensures AllNonEmpty(rs)
  {
    assert |ECHO_SENT| == 11 && |TOO_LONG| == 21 && |HEARTBEAT_REPLY| == 11;
    match e
    case Line(text) => Replies(text)
    case TooLong => [TOO_LONG]
  }

  /** The strings sent for a sequence of framer events, in order. */
  function Responses(evs: seq<Event>): (rs: seq<seq<byte>>)
    decreases |evs|
  {
    if |evs| == 0 then [] else EventReplies(evs[0]) + Responses(evs[1..])
  }

  lemma {:induction false} ResponsesNonEmpty(evs: seq<Event>)
    ensures AllNonEmpty(Responses(evs))
    decreases |evs|
  {
    if |evs| > 0 {
      ResponsesNonEmpty(evs[1..]);
      var first := EventReplies(evs[0]);
      var rest := Responses(evs[1..]);
      assert forall i :: 0 <= i < |first + rest| ==> (first + rest)[i] == if i < |first| then first[i] else rest[i - |first|];
    }
  }

  lemma {:induction false} ResponsesAppend(a: seq<Event>, b: seq<Event>)
    ensures Responses(a + b) == Responses(a) + Responses(b)
    decreases |a|
  {
    if |a| == 0 {
      assert a + b == b;
    } else {
      assert (a + b)[0] == a[0];
      assert (a + b)[1..] == a[1..] + b;
      ResponsesAppend(a[1..], b);
      var x := EventReplies(a[0]);
      assert x + (Responses(a[1..]) + Responses(b)) == (x + Responses(a[1..])) + Responses(b);
    }
  }

  /** The drain loop's per-byte work: frame the byte, then send whatever the
      framer's events call for. Returns the new line buffer and queue. */
  function Consume(line: seq<byte>, tx: Tx, bs: seq<byte>): (res: (seq<byte>, Tx))
    requires Partial(line) && tx.ring.Valid()
    ensures Partial(res.0) && res.1.ring.Valid() && |res.1.ring.buf| == |tx.ring.buf|
    decreases |bs|
  {
    if |bs| == 0 then (line, tx)
    else
      var f := Feed(LfEndsLine, line, bs[0]);
      Consume(f.acc, SendAll(tx, Responses(f.events)), bs[1..])
  }

  /** Framing and answering byte by byte is the same as framing the whole
      stream and then sending the responses to its lines in order. */
  lemma {:induction false} ConsumeIsFrameThenSend(line: seq<byte>, tx: Tx, bs: seq<byte>)
    requires Partial(line) && tx.ring.Valid()
    ensures Consume(line, tx, bs).0 == FeedAll(LfEndsLine, line, bs).acc
    ensures Consume(line, tx, bs).1 == SendAll(tx, Responses(FeedAll(LfEndsLine, line, bs).events))
    decreases |bs|
  {
    if |bs| > 0 {
      var f := Feed(LfEndsLine, line, bs[0]);
      var tx1 := SendAll(tx, Responses(f.events));
      ConsumeIsFrameThenSend(f.acc, tx1, bs[1..]);
      var rest := FeedAll(LfEndsLine, f.acc, bs[1..]);
      ResponsesAppend(f.events, rest.events);
      SendAllAppend(tx, Responses(f.events), Responses(rest.events));
    }
  }

  /** The main loop's `while (rxHead != rxTail)` drain, taken as one step:
      every unread byte is consumed in FIFO order and `rxTail` ends at
      `rxHead`. */
  function Drain(s: Echo): (s': Echo)
    requires Inv(s)
    ensures Inv(s')
    ensures IsEmpty(s'.rx) && s'.rx.buf == s.rx.buf && s'.rx.head == s.rx.head
    ensures s'.line == FeedAll(LfEndsLine, s.line, Contents(s.rx)).acc
    ensures s'.tx == SendAll(s.tx, Responses(FeedAll(LfEndsLine, s.line, Contents(s.rx)).events))
    ensures s'.led == s.led && s'.lastSend == s.lastSend && s'.lastToggle == s.lastToggle
  {
    var c := Consume(s.line, s.tx, Contents(s.rx));
    ConsumeIsFrameThenSend(s.line, s.tx, Contents(s.rx));
    ResponsesNonEmpty(FeedAll(LfEndsLine, s.line, Contents(s.rx)).events);
    SendAllKeepsInv(s.tx, Responses(FeedAll(LfEndsLine, s.line, Contents(s.rx)).events));
    s.(rx := Discard(s.rx), line := c.0, tx := c.1)
  }

  lemma ConsumeFirst(line: seq<byte>, tx: Tx, c: byte, rest: seq<byte>)
    requires Partial(line) && tx.ring.Valid()
    ensures var f := Feed(LfEndsLine, line, c);
            Consume(line, tx, [c] + rest) == Consume(f.acc, SendAll(tx, Responses(f.events)), rest)
  {
    assert ([c] + rest)[0] == c && ([c] + rest)[1..] == rest;
  }

  /** What the loop body sends for each shape of framer output. */
  lemma SendResponses(tx: Tx, evs: seq<Event>)
    requires tx.ring.Valid() && |evs| <= 1
    ensures |evs| == 0 ==> SendAll(tx, Responses(evs)) == tx
    ensures |evs| == 1 && evs[0].TooLong? ==> SendAll(tx, Responses(evs)) == Transmit(tx, TOO_LONG)
    ensures |evs| == 1 && evs[0].Line? && CString(evs[0].text) == HEARTBEAT ==>
              SendAll(tx, Responses(evs)) == Transmit(Transmit(tx, HEARTBEAT_REPLY), ECHO_SENT)
    ensures |evs| == 1 && evs[0].Line? && CString(evs[0].text) != HEARTBEAT ==>
              SendAll(tx, Responses(evs)) == Transmit(tx, ECHO_SENT)
  {
    if |evs| == 1 {
      var e := evs[0];
      assert evs[1..] == [];
      assert Responses(evs) == EventReplies(e) + [];
      assert EventReplies(e) + [] == EventReplies(e);
      match e
      case TooLong =>
        SendOne(tx, TOO_LONG);
      case Line(text) =>
        if CString(text) == HEARTBEAT {
          SendOneOrTwo(tx, HEARTBEAT_REPLY, ECHO_SENT);
        } else {
          SendOne(tx, ECHO_SENT);
        }
    }
  }

  /** The body of the drain loop for one byte `c`, as the firmware writes
      it: it frames `c` and sends exactly the replies the framer's events
      call for. */
  method HandleByte(line: seq<byte>, tx: Tx, c: byte) returns (line': seq<byte>, tx': Tx)
    requires Partial(line) && tx.ring.Valid()
    ensures line' == Feed(LfEndsLine, line, c).acc
    ensures tx' == SendAll(tx, Responses(Feed(LfEndsLine, line, c).events))
  {
    SendResponses(tx, Feed(LfEndsLine, line, c).events);
    line', tx' := line, tx;
    if c == CR {
      return;
    }
    if c == LF {
      if |line| > 0 {
        if CString(line) == HEARTBEAT {
          tx' := Transmit(tx', HEARTBEAT_REPLY);
        }
        tx' := Transmit(tx', ECHO_SENT);
        line' := [];
      }
    } else {
      if |line| < MAX_LINE {
        line' := line + [c];
      } else {
        tx' := Transmit(tx', TOO_LONG);
        line' := [];
      }
    }
  }

  /** The drain loop as the firmware writes it, one byte per iteration. It
      leaves the receive ring empty, and leaves the line buffer and queue
      exactly as framing the unread bytes in FIFO order and answering the
      resulting lines would. */
  method DrainLoop(s: Echo) returns (s': Echo)
    requires Inv(s)
    ensures IsEmpty(s'.rx) && s'.rx.buf == s.rx.buf && s'.rx.head == s.rx.head
    ensures s'.line == FeedAll(LfEndsLine, s.line, Contents(s.rx)).acc
    ensures s'.tx == SendAll(s.tx, Responses(FeedAll(LfEndsLine, s.line, Contents(s.rx)).events))
    ensures s'.led == s.led && s'.lastSend == s.lastSend && s'.lastToggle == s.lastToggle
  {
    var rx := s.rx;
    var line := s.line;
    var tx := s.tx;
    ConsumeIsFrameThenSend(s.line, s.tx, Contents(s.rx));
    while rx.head != rx.tail
      invariant rx.Valid() && rx.buf == s.rx.buf && rx.head == s.rx.head
      invariant Partial(line) && tx.ring.Valid()
      invariant Consume(line, tx, Contents(rx)) == Consume(s.line, s.tx, Contents(s.rx))
      decreases Count(rx)
    {
      var c := rx.buf[rx.tail];
      var next := rx.(tail := (rx.tail + 1) % RX_SIZE);
      NextIsMod(rx.tail, RX_SIZE);
      assert Contents(rx) == [c] + Contents(next) by {
        var (b, r') := Pop(rx);
        assert r' == next && b == c;
      }
      ConsumeFirst(line, tx, c, Contents(next));
      rx := next;
      line, tx := HandleByte(line, tx, c);
    }
    EmptyIffNoContents(rx);
    s' := s.(rx := rx, line := line, tx := tx);
  }

  /** The main loop's timer checks at tick `now`: the status line is sent
      only when strictly more than 3000 ms have passed since the last one, by
      unsigned 32-bit wrapping subtraction, and the LED toggles only when
      strictly more than 500 ms have passed since the last toggle. */
  function TimerCheck(s: Echo, now: u32): (s': Echo)
    requires Inv(s)
    ensures Inv(s')
    ensures s'.rx == s.rx && s'.line == s.line
    ensures Sub32(now, s.lastSend) > STATUS_PERIOD ==> s'.tx == Transmit(s.tx, STATUS_OK) && s'.lastSend == now
    ensures Sub32(now, s.lastSend) <= STATUS_PERIOD ==> s'.tx == s.tx && s'.lastSend == s.lastSend
    ensures Sub32(now, s.lastToggle) > BLINK_PERIOD ==> s'.led == !s.led && s'.lastToggle == now
    ensures Sub32(now, s.lastToggle) <= BLINK_PERIOD ==> s'.led == s.led && s'.lastToggle == s.lastToggle
  {
    assert |STATUS_OK| == 12;
    TransmitKeepsInv(s.tx, STATUS_OK);
    var s1 := if Sub32(now, s.lastSend) > STATUS_PERIOD
      then s.(tx := Transmit(s.tx, STATUS_OK), lastSend := now)
      else s;
    if Sub32(now, s1.lastToggle) > BLINK_PERIOD then s1.(led := !s1.led, lastToggle := now) else s1
  }

  /** The comparison is strict and survives the tick counter wrapping: with
      the last status at tick `last`, a check exactly 3000 ms later sends
      nothing. */
  lemma StatusNotAtPeriod(s: Echo)
    requires Inv(s)
    ensures TimerCheck(s, ((s.lastSend + STATUS_PERIOD) % U32) as u32).tx == s.tx
  {
    ElapsedAcrossWrap(s.lastSend, STATUS_PERIOD);
  }

  /** ... and a check 3001 ms later sends the status line. */
  lemma StatusAfterPeriod(s: Echo)
    requires Inv(s)
    ensures TimerCheck(s, ((s.lastSend + STATUS_PERIOD + 1) % U32) as u32).tx == Transmit(s.tx, STATUS_OK)
  {
    ElapsedAcrossWrap(s.lastSend, STATUS_PERIOD + 1);
  }

  /** One event. A transmit-complete interrupt only arrives while a byte is
      in flight; at any other time the event changes nothing. */
  function Step(s: Echo, e: EchoEvent): (s': Echo)
    requires Inv(s)
    ensures Inv(s')
    ensures e.RxByte? ==> s'.line == s.line && s'.tx == s.tx && s'.led == s.led
                          && s'.lastSend == s.lastSend && s'.lastToggle == s.lastToggle
                          && Contents(s'.rx) == (if IsFull(s.rx) then Contents(s.rx) else Contents(s.rx) + [e.b])
    ensures e.TxDone? && !s.tx.busy ==> s' == s
    ensures e.TxDone? && s.tx.busy ==> s'.tx == Complete(s.tx) && s'.rx == s.rx && s'.line == s.line
                                       && s'.led == s.led && s'.lastSend == s.lastSend && s'.lastToggle == s.lastToggle
    ensures e.Poll? ==> s' == Drain(s)
    ensures e.Tick? ==> s' == TimerCheck(s, e.now)
  {
    match e
    case RxByte(b) => s.(rx := Push(s.rx, b))
    case TxDone =>
      if s.tx.busy then CompleteKeepsInv(s.tx); s.(tx := Complete(s.tx)) else s
    case Poll => Drain(s)
    case Tick(now) => TimerCheck(s, now)
  }

  function Run(s: Echo, evs: seq<EchoEvent>): (s': Echo)
    requires Inv(s)
    ensures Inv(s')
    decreases |evs|
  {
    if |evs| == 0 then s else Run(Step(s, evs[0]), evs[1..])
  }

  /** Over every interleaving of interrupts and main-loop phases after
      reset, the receive ring stays within bounds, the line never exceeds 63
      bytes, `txBusy` is set exactly while the transmit ring is non-empty,
      and the bytes on the wire are always a prefix of the bytes queued. */
  lemma AlwaysConsistent(evs: seq<EchoEvent>)
    ensures var s := Run(Init(), evs);
            Inv(s) && |s.line| <= MAX_LINE && s.rx.head < RX_SIZE && s.rx.tail < RX_SIZE
            && (s.tx.busy <==> !IsEmpty(s.tx.ring)) && s.tx.wire <= s.tx.queued
  {
    WireIsPrefixOfQueued(Run(Init(), evs).tx);
  }

  function RxBytes(bs: seq<byte>): (evs: seq<EchoEvent>)
    ensures |evs| == |bs|
    decreases |bs|
  {
    if |bs| == 0 then [] else [RxByte(bs[0])] + RxBytes(bs[1..])
  }

  /** A burst of receive interrupts is a burst of checked pushes. */
  lemma {:induction false} RxBurst(s: Echo, bs: seq<byte>)
    requires Inv(s)
    ensures Run(s, RxBytes(bs)) == s.(rx := PushAll(s.rx, bs))
    decreases |bs|
  {
    if |bs| > 0 {
      assert RxBytes(bs)[0] == RxByte(bs[0]) && RxBytes(bs)[1..] == RxBytes(bs[1..]);
      RxBurst(Step(s, RxByte(bs[0])), bs[1..]);
    }
  }

  /** `Heartbeat` is a line the framer can deliver. */
  lemma HeartbeatDeliverable()
    ensures Deliverable(HEARTBEAT)
  {
    assert Printable("Heartbeat");
    PrintableHasNoControl("Heartbeat");
  }

  /** `Heartbeat` holds no NUL, so `strcmp` sees all of it. */
  lemma HeartbeatIsCString()
    ensures CString(HEARTBEAT) == HEARTBEAT
  {
    assert NUL !in HEARTBEAT by {
      assert Printable("Heartbeat");
      PrintableHasNoControl("Heartbeat");
    }
    CStringOfNulFree(HEARTBEAT);
  }

  /** Draining a ring that holds exactly one deliverable line and its CRLF
      queues the replies to that line and leaves the line buffer empty. */
  lemma DrainOneLine(s: Echo, l: seq<byte>)
    requires Inv(s) && s.line == [] && Contents(s.rx) == l + Terminator(true)
    requires Deliverable(l)
    requires |Flatten(Replies(l))| <= Room(s.tx.ring)
    ensures Drain(s).tx.queued == s.tx.queued + Flatten(Replies(l))
    ensures Drain(s).line == []
  {
    var msgs := Replies(l);
    var framed := FeedAll(LfEndsLine, s.line, Contents(s.rx));
    assert framed.acc == [] && framed.events == [Line(l)] by {
      OneLine(LfEndsLine, l, true);
    }
    assert Responses(framed.events) == msgs by {
      assert Responses([Line(l)]) == msgs + [];
    }
    assert Drain(s).tx == SendAll(s.tx, msgs);
    SendAllFits(s.tx, msgs);
  }

  /** The two strings the dispatcher sends for `Heartbeat`, joined. */
  lemma HeartbeatReplies()
    ensures Flatten(Replies(HEARTBEAT)) == HEARTBEAT_REPLY + ECHO_SENT
    ensures |HEARTBEAT_REPLY| + |ECHO_SENT| == 22
  {
    var msgs := [HEARTBEAT_REPLY, ECHO_SENT];
    assert Replies(HEARTBEAT) == msgs by {
      HeartbeatIsCString();
    }
    assert Flatten(msgs) == HEARTBEAT_REPLY + ECHO_SENT by {
      assert msgs[1..] == [ECHO_SENT];
      assert [ECHO_SENT][1..] == [];
      assert Flatten([ECHO_SENT]) == ECHO_SENT + [];
    }
    assert |HEARTBEAT_REPLY| == 11 && |ECHO_SENT| == 11;
  }

  /** A burst of bytes received into an idle receive ring, then one drain of
      the main loop: the drain sees exactly the burst, as long as it fits in
      the ring's 127 usable slots. */
  lemma ReceiveThenDrain(s: Echo, bs: seq<byte>)
    requires Inv(s) && IsEmpty(s.rx)
    requires |bs| < RX_SIZE
    ensures var s1 := s.(rx := PushAll(s.rx, bs));
            Inv(s1) && Contents(s1.rx) == bs
            && Run(s, RxBytes(bs) + [Poll]) == Drain(s1)
  {
    RunAppend(s, RxBytes(bs), [Poll]);
    RxBurst(s, bs);
    var s1 := s.(rx := PushAll(s.rx, bs));
    assert Contents(s1.rx) == bs by {
      EmptyIffNoContents(s.rx);
      BurstKeepsOldest(s.rx, bs);
      assert Contents(s.rx) == [];
      assert Min(|bs|, Room(s.rx)) == |bs|;
      assert bs[..|bs|] == bs;
    }
    assert Run(s1, [Poll]) == Drain(s1) by {
      assert [Poll][1..] == [];
    }
  }

  /** End to end, for any line: with the receive side idle, a deliverable
      line and its CRLF arriving one interrupt at a time, then one drain of
      the main loop, queue exactly the replies to that line and leave the
      line buffer and the receive ring empty. */
  lemma LineScenario(s: Echo, l: seq<byte>)
    requires Inv(s) && IsEmpty(s.rx) && s.line == []
    requires Deliverable(l)
    requires |Flatten(Replies(l))| <= Room(s.tx.ring)
    ensures var s' := Run(s, RxBytes(l + CRLF) + [Poll]);
            s'.tx.queued == s.tx.queued + Flatten(Replies(l))
            && s'.line == [] && IsEmpty(s'.rx)
  {
    assert Terminator(true) == CRLF;
    ReceiveThenDrain(s, l + CRLF);
    DrainOneLine(s.(rx := PushAll(s.rx, l + CRLF)), l);
  }

  /** The heartbeat instance: `Heartbeat\r\n` queues exactly
      `Heartbeat\r\n` followed by `Echo Sent\r\n`. */
  lemma HeartbeatLineScenario(s: Echo)
    requires Inv(s) && IsEmpty(s.rx) && s.line == []
    requires |HEARTBEAT_REPLY| + |ECHO_SENT| <= Room(s.tx.ring)
    ensures var s' := Run(s, RxBytes(HEARTBEAT_REPLY) + [Poll]);
            s'.tx.queued == s.tx.queued + HEARTBEAT_REPLY + ECHO_SENT
            && s'.line == [] && IsEmpty(s'.rx)
  {
    HeartbeatDeliverable();
    HeartbeatReplies();
    LineScenario(s, HEARTBEAT);
  }

  lemma {:induction false} RunAppend(s: Echo, a: seq<EchoEvent>, b: seq<EchoEvent>)
    requires Inv(s)
    ensures Run(s, a + b) == Run(Run(s, a), b)
    decreases |a|
  {
    if |a| == 0 {
      assert a + b == b;
    } else {
      assert (a + b)[0] == a[0] && (a + b)[1..] == a[1..] + b;
      RunAppend(Step(s, a[0]), a[1..], b);
    }
  }
}
