/** The ring-buffer command-line firmware: each received byte is stored by the
    receive interrupt in a 128-byte ring with no overflow check; the main
    loop drains the ring, frames command lines ended by `'\r'` or `'\n'`, and
    answers each with a blocking `print`. Printed bytes are appended to the
    `out` log, and the LED on PA5 is a boolean.

    Each interrupt or main-loop drain is one atomic event applied to a `Cmd`
    record. */
module CommandFirmware {
  import opened Bytes
  import opened Ring
  import opened Framer

  /** `RXBUF_SIZE`. */
  const RX_SIZE: nat := 128

  /** The five command words, compared with `strcmp`. */
  const KW_HELP: seq<byte> := Ascii("help")
  const KW_LED_ON: seq<byte> := Ascii("led on")
  const KW_LED_OFF: seq<byte> := Ascii("led off")
  const KW_PING: seq<byte> := Ascii("ping")
  const KW_VERSION: seq<byte> := Ascii("version")

  /** The replies; each is one `print` ending in CRLF. */
  const HELP_TEXT: seq<byte> := Ascii("Commands:\r\n  help\r\n  led on\r\n  led off\r\n  ping\r\n  version") + CRLF
  const LED_ON_TEXT: seq<byte> := Ascii("LED ON") + CRLF
  const LED_OFF_TEXT: seq<byte> := Ascii("LED OFF") + CRLF
  const PONG_TEXT: seq<byte> := Ascii("pong") + CRLF
  const VERSION_TEXT: seq<byte> := Ascii("v1.0.0") + CRLF
  const UNKNOWN_TEXT: seq<byte> := Ascii("Unknown command") + CRLF
  const TOO_LONG_TEXT: seq<byte> := Ascii("Command too long, reset.") + CRLF

  /** The two lines printed after reset. */
  const BANNER: seq<byte> := Ascii("\r\nRing Buffer UART Example\r\n")
                             + Ascii("Type commands: help, led on, led off, ping, version\r\n")

  /** What `processCommand` makes of a line. */
  datatype Command = Help | LedOn | LedOff | Ping | Version | Unknown

  /** The word that selects a known command. */
  function Keyword(c: Command): (w: seq<byte>)
    requires c != Unknown
    ensures 4 <= |w| <= 7
  {
    match c
    case Help => KW_HELP
    case LedOn => KW_LED_ON
    case LedOff => KW_LED_OFF
    case Ping => KW_PING
    case Version => KW_VERSION
  }

  /** Different commands have different words. */
  lemma KeywordsDistinct(c: Command, d: Command)
    requires c != Unknown && d != Unknown && c != d
    ensures Keyword(c) != Keyword(d)
  {
    var w, v := Keyword(c), Keyword(d);
    if |w| == |v| {
      assert {c, d} == {Help, Ping} || {c, d} == {LedOff, Version};
      assert w[0] != v[0];
    }
  }

  /** Exact, case-sensitive matching of the C string against the five words:
      a known command exactly when the line is its word. */
  function Parse(cmd: seq<byte>): (c: Command)
    ensures c != Unknown ==> cmd == Keyword(c)
  {
    if cmd == KW_HELP then Help
    else if cmd == KW_LED_ON then LedOn
    else if cmd == KW_LED_OFF then LedOff
    else if cmd == KW_PING then Ping
    else if cmd == KW_VERSION then Version
    else Unknown
  }

  /** A line is an unknown command exactly when it is none of the five
      words. */
  lemma ParseUnknown(cmd: seq<byte>)
    ensures Parse(cmd) == Unknown <==> forall k: Command :: k != Unknown ==> cmd != Keyword(k)
  {
    if Parse(cmd) == Unknown {
      forall k: Command | k != Unknown
        ensures cmd != Keyword(k)
      {
      }
    }
  }

  /** Round trip: the word of a known command parses back to that command. */
  lemma ParseKeyword(c: Command)
    requires c != Unknown
    ensures Parse(Keyword(c)) == c
  {
    var p := Parse(Keyword(c));
    if p != c {
      assert p != Unknown;
      KeywordsDistinct(p, c);
    }
  }

  /** A text followed by CRLF ends with CRLF. */
  lemma EndsWithCrlf(t: seq<byte>)
    ensures |t + CRLF| >= 2 && (t + CRLF)[|t + CRLF| - 2..] == CRLF
  {
    assert (t + CRLF)[|t|..] == CRLF;
  }

  /** The reply printed for each command; every reply is a line ended by
      CRLF. */
  function Reply(c: Command): (r: seq<byte>)
    ensures |r| > 2 && r[|r| - 2..] == CRLF
  {
    match c
    case Help => EndsWithCrlf(Ascii("Commands:\r\n  help\r\n  led on\r\n  led off\r\n  ping\r\n  version")); HELP_TEXT
    case LedOn => EndsWithCrlf(Ascii("LED ON")); LED_ON_TEXT
    case LedOff => EndsWithCrlf(Ascii("LED OFF")); LED_OFF_TEXT
    case Ping => EndsWithCrlf(Ascii("pong")); PONG_TEXT
    case Version => EndsWithCrlf(Ascii("v1.0.0")); VERSION_TEXT
    case Unknown => EndsWithCrlf(Ascii("Unknown command")); UNKNOWN_TEXT
  }

  /** The reply tells which command ran: no two commands share one. */
  lemma RepliesIdentifyCommand(c: Command, d: Command)
    requires c != d
    ensures Reply(c) != Reply(d)
  {
    assert |HELP_TEXT| == 59 && |LED_ON_TEXT| == 8 && |LED_OFF_TEXT| == 9;
    assert |PONG_TEXT| == 6 && |VERSION_TEXT| == 8 && |UNKNOWN_TEXT| == 17;
    if |Reply(c)| == |Reply(d)| {
      assert {c, d} == {LedOn, Version};
      assert LED_ON_TEXT[0] != VERSION_TEXT[0];
    }
  }

  /** The printed bytes and the LED level after some processing. */
  datatype Outcome = Outcome(out: seq<byte>, led: bool)

  /** `processCommand` on the null-terminated line buffer: the `strcmp` chain
      sees the line up to its first NUL. */
  function ProcessCommand(line: seq<byte>, led: bool): (o: Outcome)
    ensures o.out == Reply(Parse(CString(line)))
    ensures Parse(CString(line)) == LedOn ==> o.led
    ensures Parse(CString(line)) == LedOff ==> !o.led
    ensures Parse(CString(line)) != LedOn && Parse(CString(line)) != LedOff ==> o.led == led
  {
    var cmd := CString(line);
    if cmd == KW_HELP then Outcome(HELP_TEXT, led)
    else if cmd == KW_LED_ON then Outcome(LED_ON_TEXT, true)
    else if cmd == KW_LED_OFF then Outcome(LED_OFF_TEXT, false)
    else if cmd == KW_PING then Outcome(PONG_TEXT, led)
    else if cmd == KW_VERSION then Outcome(VERSION_TEXT, led)
    else Outcome(UNKNOWN_TEXT, led)
  }

  /** What a processed event does to the LED. */
  datatype LedAction = Keep | Drive(level: bool)

  /** What one framer event does: the bytes it prints and its LED action. */
  datatype Effect = Effect(out: seq<byte>, action: LedAction)

  /** The effect of each command: its reply, and `led on` / `led off`
      driving PA5 high / low. */
  function CommandEffect(c: Command): (f: Effect)
    ensures f.out == Reply(c)
    ensures f.action == (if c == LedOn then Drive(true) else if c == LedOff then Drive(false) else Keep)
  {
    match c
    case LedOn => Effect(LED_ON_TEXT, Drive(true))
    case LedOff => Effect(LED_OFF_TEXT, Drive(false))
    case _ => Effect(Reply(c), Keep)
  }

  /** A line is parsed as a C string; an overlong line prints the reset
      notice. */
  function EventEffect(e: Event): Effect
  {
    match e
    case Line(text) => CommandEffect(Parse(CString(text)))
    case TooLong => Effect(TOO_LONG_TEXT, Keep)
  }

  /** The effects of a sequence of events under `answer`, one per event, in
      order. */
  function Effects(answer: Event -> Effect, evs: seq<Event>): (fs: seq<Effect>)
    ensures |fs| == |evs|
    decreases |evs|
  {
    if |evs| == 0 then [] else [answer(evs[0])] + Effects(answer, evs[1..])
  }

  lemma {:induction false} EffectsAppend(answer: Event -> Effect, a: seq<Event>, b: seq<Event>)
    ensures Effects(answer, a + b) == Effects(answer, a) + Effects(answer, b)
    decreases |a|
  {
    if |a| == 0 {
      assert a + b == b;
    } else {
      assert (a + b)[0] == a[0];
      assert (a + b)[1..] == a[1..] + b;
      EffectsAppend(answer, a[1..], b);
    }
  }

  /** Performing effects in order: the outputs concatenate and the last
      drive wins. */
  function Perform(fs: seq<Effect>, led: bool): (o: Outcome)
    decreases |fs|
  {
    if |fs| == 0 then Outcome([], led)
    else
      var first := match fs[0].action case Keep => led case Drive(level) => level;
      var rest := Perform(fs[1..], first);
      Outcome(fs[0].out + rest.out, rest.led)
  }

  lemma {:induction false} PerformAppend(a: seq<Effect>, b: seq<Effect>, led: bool)
    ensures Perform(a + b, led).out == Perform(a, led).out + Perform(b, Perform(a, led).led).out
    ensures Perform(a + b, led).led == Perform(b, Perform(a, led).led).led
    decreases |a|
  {
    if |a| == 0 {
      assert a + b == b;
    } else {
      assert (a + b)[0] == a[0];
      assert (a + b)[1..] == a[1..] + b;
      var first := match a[0].action case Keep => led case Drive(level) => level;
      PerformAppend(a[1..], b, first);
      var mid := Perform(a[1..], first);
      var last := Perform(b, mid.led);
      assert a[0].out + (mid.out + last.out) == (a[0].out + mid.out) + last.out;
    }
  }

  /** The output of a sequence of events answered by `answer`, in order,
      threading the LED. */
  function Respond(answer: Event -> Effect, evs: seq<Event>, led: bool): (o: Outcome)
  {
    Perform(Effects(answer, evs), led)
  }

  lemma RespondAppend(answer: Event -> Effect, a: seq<Event>, b: seq<Event>, led: bool)
    ensures Respond(answer, a + b, led).out
            == Respond(answer, a, led).out + Respond(answer, b, Respond(answer, a, led).led).out
    ensures Respond(answer, a + b, led).led == Respond(answer, b, Respond(answer, a, led).led).led
  {
    EffectsAppend(answer, a, b);
    PerformAppend(Effects(answer, a), Effects(answer, b), led);
  }

  /** The firmware's answers to a sequence of events. */
  function Dispatch(evs: seq<Event>, led: bool): (o: Outcome)
  {
    Respond(EventEffect, evs, led)
  }

  /** One event on its own: a line is answered exactly as `processCommand`
      answers it, and a too-long line prints exactly the reset notice. */
  lemma DispatchOne(e: Event, led: bool)
    ensures e.Line? ==> Dispatch([e], led) == ProcessCommand(e.text, led)
    ensures e.TooLong? ==> Dispatch([e], led) == Outcome(TOO_LONG_TEXT, led)
  {
    var f := EventEffect(e);
    var level := match f.action case Keep => led case Drive(v) => v;
    assert Dispatch([e], led) == Outcome(f.out, level) by {
      DispatchSingle(e, led);
    }
    if e.Line? {
      var c := Parse(CString(e.text));
      assert f == CommandEffect(c);
      var o := ProcessCommand(e.text, led);
      assert o.out == f.out && o.led == level;
    }
  }

  /** A single event prints its effect's bytes and applies its LED action. */
  lemma DispatchSingle(e: Event, led: bool)
    ensures var f := EventEffect(e);
            Dispatch([e], led) == Outcome(f.out, match f.action case Keep => led case Drive(v) => v)
  {
    var f := EventEffect(e);
    var level := match f.action case Keep => led case Drive(v) => v;
    assert [e][1..] == [] && [f][1..] == [];
    assert Effects(EventEffect, [e]) == [f] + [];
    assert Perform([], level) == Outcome([], level);
    assert Perform([f], led) == Outcome(f.out + [], level);
    assert f.out + [] == f.out;
  }

  /** Each processed line prints exactly one reply. */
  lemma OneReplyPerLine(text: seq<byte>, led: bool)
    ensures exists c: Command :: Dispatch([Line(text)], led).out == Reply(c)
  {
    DispatchOne(Line(text), led);
    assert Dispatch([Line(text)], led).out == Reply(Parse(CString(text)));
  }

  /** The ring, the `cmdLine` buffer up to `cmdIndex`, the LED on PA5, and
      everything printed so far. */
  datatype Cmd = Cmd(rx: RingBuf, line: seq<byte>, led: bool, out: seq<byte>)

  datatype CmdEvent =
    | RxByte(b: byte)   // receive-complete interrupt
    | Poll              // one pass of the main loop's drain

  ghost predicate Inv(s: Cmd)
  {
    s.rx.Valid() && |s.rx.buf| == RX_SIZE && Partial(s.line)
  }

  /** After reset: the LED is driven low and the banner printed. */
  function Init(): (s: Cmd)
    ensures Inv(s) && IsEmpty(s.rx) && s.line == [] && !s.led && s.out == BANNER
  {
    Cmd(EmptyRing(RX_SIZE), [], false, BANNER)
  }

  /** The line buffer, LED and output while the main loop consumes bytes. */
  datatype Progress = Progress(line: seq<byte>, led: bool, out: seq<byte>)

  /** The drain loop, byte by byte: frame, then print what `answer` says
      for each event. */
  function Consume(answer: Event -> Effect, p: Progress, bs: seq<byte>): (p': Progress)
    requires Partial(p.line)
    ensures Partial(p'.line)
    decreases |bs|
  {
    if |bs| == 0 then p
    else
      var f := Feed(CrOrLfEndsLine, p.line, bs[0]);
      var o := Respond(answer, f.events, p.led);
      Consume(answer, Progress(f.acc, o.led, p.out + o.out), bs[1..])
  }

  /** The progress after answering the events of `framed` from `p`, with
      the line buffer left at `framed.acc`. */
  function Settle(answer: Event -> Effect, p: Progress, framed: Framed): (p': Progress)
  {
    var o := Respond(answer, framed.events, p.led);
    Progress(framed.acc, o.led, p.out + o.out)
  }

  /** Answering some events and then the rest is answering all of them. */
  lemma SettleAppend(answer: Event -> Effect, p: Progress, first: seq<Event>, rest: Framed)
    ensures var o := Respond(answer, first, p.led);
            Settle(answer, Progress(p.line, o.led, p.out + o.out), rest)
            == Settle(answer, p, Framed(rest.acc, first + rest.events))
  {
    RespondAppend(answer, first, rest.events, p.led);
    var o := Respond(answer, first, p.led);
    var o2 := Respond(answer, rest.events, o.led);
    assert p.out + o.out + o2.out == p.out + (o.out + o2.out);
  }

  /** Consuming byte by byte is framing the whole stream, then answering its
      events in order. */
  lemma {:induction false} ConsumeIsFrameThenRespond(answer: Event -> Effect, p: Progress, bs: seq<byte>)
    requires Partial(p.line)
    ensures Consume(answer, p, bs) == Settle(answer, p, FeedAll(CrOrLfEndsLine, p.line, bs))
    decreases |bs|
  {
    if |bs| == 0 {
      assert p.out + [] == p.out;
    } else {
      var f := Feed(CrOrLfEndsLine, p.line, bs[0]);
      var o := Respond(answer, f.events, p.led);
      var p1 := Progress(f.acc, o.led, p.out + o.out);
      var rest := FeedAll(CrOrLfEndsLine, f.acc, bs[1..]);
      calc {
        Consume(answer, p, bs);
        Consume(answer, p1, bs[1..]);
        { ConsumeIsFrameThenRespond(answer, p1, bs[1..]); }
        Settle(answer, p1, rest);
        { SettleAppend(answer, p.(line := f.acc), f.events, rest); }
        Settle(answer, p, Framed(rest.acc, f.events + rest.events));
        Settle(answer, p, FeedAll(CrOrLfEndsLine, p.line, bs));
      }
    }
  }

  lemma ConsumeFirst(answer: Event -> Effect, p: Progress, c: byte, rest: seq<byte>)
    requires Partial(p.line)
    ensures var f := Feed(CrOrLfEndsLine, p.line, c);
            var o := Respond(answer, f.events, p.led);
            Consume(answer, p, [c] + rest) == Consume(answer, Progress(f.acc, o.led, p.out + o.out), rest)
  {
    assert ([c] + rest)[0] == c && ([c] + rest)[1..] == rest;
  }

  /** One pass of the drain: every byte in the ring, oldest first, is framed
      and answered, and the ring is left empty. */
  function Drain(s: Cmd): (s': Cmd)
    requires Inv(s)
    ensures Inv(s')
    ensures IsEmpty(s'.rx) && s'.rx.buf == s.rx.buf && s'.rx.head == s.rx.head
    ensures var framed := FeedAll(CrOrLfEndsLine, s.line, Contents(s.rx));
            var o := Dispatch(framed.events, s.led);
            s'.line == framed.acc && s'.led == o.led && s'.out == s.out + o.out
  {
    var p := Consume(EventEffect, Progress(s.line, s.led, s.out), Contents(s.rx));
    ConsumeIsFrameThenRespond(EventEffect, Progress(s.line, s.led, s.out), Contents(s.rx));
    s.(rx := Discard(s.rx), line := p.line, led := p.led, out := p.out)
  }

  /** The body of the drain loop for one byte `c`, as the firmware writes it. */
  method HandleByte(p: Progress, c: byte) returns (p': Progress)
    requires Partial(p.line)
    ensures var f := Feed(CrOrLfEndsLine, p.line, c);
            var o := Dispatch(f.events, p.led);
            p' == Progress(f.acc, o.led, p.out + o.out)
  {
    var f := Feed(CrOrLfEndsLine, p.line, c);
    DispatchOne(Line(p.line), p.led);
    DispatchOne(TooLong, p.led);
    var line, led, out := p.line, p.led, p.out;
    if c == CR || c == LF {
      if |line| > 0 {
        var o := ProcessCommand(line, led);
        led, out := o.led, out + o.out;
        line := [];
      }
    } else {
      if |line| < MAX_LINE {
        line := line + [c];
      } else {
        out := out + TOO_LONG_TEXT;
        line := [];
      }
    }
    assert Effects(EventEffect, []) == [];
    p' := Progress(line, led, out);
  }

  /** The drain loop itself: pop at `tail`, advance it modulo 128, handle the
      byte, until `tail` meets `head`. */
  method DrainLoop(s: Cmd) returns (s': Cmd)
    requires Inv(s)
    ensures IsEmpty(s'.rx) && s'.rx.buf == s.rx.buf && s'.rx.head == s.rx.head
    ensures var framed := FeedAll(CrOrLfEndsLine, s.line, Contents(s.rx));
            var o := Dispatch(framed.events, s.led);
            s'.line == framed.acc && s'.led == o.led && s'.out == s.out + o.out
  {
    var rx := s.rx;
    var p := Progress(s.line, s.led, s.out);
    ConsumeIsFrameThenRespond(EventEffect, p, Contents(s.rx));
    while rx.tail != rx.head
      invariant rx.Valid() && rx.buf == s.rx.buf && rx.head == s.rx.head
      invariant Partial(p.line)
      invariant Consume(EventEffect, p, Contents(rx)) == Consume(EventEffect, Progress(s.line, s.led, s.out), Contents(s.rx))
      decreases Count(rx)
    {
      var c := rx.buf[rx.tail];
      var next := rx.(tail := (rx.tail + 1) % RX_SIZE);
      NextIsMod(rx.tail, RX_SIZE);
      assert Contents(rx) == [c] + Contents(next) by {
        var (b, r') := Pop(rx);
        assert r' == next && b == c;
      }
      ConsumeFirst(EventEffect, p, c, Contents(next));
      rx := next;
      p := HandleByte(p, c);
    }
    EmptyIffNoContents(rx);
    s' := s.(rx := rx, line := p.line, led := p.led, out := p.out);
  }

  /** One event: the receive interrupt stores the byte unconditionally. */
  function Step(s: Cmd, e: CmdEvent): (s': Cmd)
    requires Inv(s)
    ensures Inv(s')
    ensures e.RxByte? ==> s'.line == s.line && s'.led == s.led && s'.out == s.out
    ensures e.RxByte? && Count(s.rx) < RX_SIZE - 1 ==> Contents(s'.rx) == Contents(s.rx) + [e.b]
    ensures e.RxByte? && Count(s.rx) == RX_SIZE - 1 ==> IsEmpty(s'.rx)
    ensures e.Poll? ==> s' == Drain(s)
  {
    match e
    case RxByte(b) => s.(rx := PushUnchecked(s.rx, b))
    case Poll => Drain(s)
  }

  function Run(s: Cmd, evs: seq<CmdEvent>): (s': Cmd)
    requires Inv(s)
    ensures Inv(s')
    decreases |evs|
  {
    if |evs| == 0 then s else Run(Step(s, evs[0]), evs[1..])
  }

  lemma {:induction false} RunAppend(s: Cmd, a: seq<CmdEvent>, b: seq<CmdEvent>)
    requires Inv(s)
    ensures Run(s, a + b) == Run(Run(s, a), b)
    decreases |a|
  {
    if |a| == 0 {
      assert a + b == b;
    } else {
      assert (a + b)[0] == a[0] && (a + b)[1..] == a[1..] + b;
      RunAppend(Step(s, a[0]), a[1..], b);
    }
  }

  function RxBytes(bs: seq<byte>): (evs: seq<CmdEvent>)
    ensures |evs| == |bs|
    decreases |bs|
  {
    if |bs| == 0 then [] else [RxByte(bs[0])] + RxBytes(bs[1..])
  }

  /** A burst of receive interrupts is a burst of unchecked pushes. */
  lemma {:induction false} RxBurst(s: Cmd, bs: seq<byte>)
    requires Inv(s)
    ensures Run(s, RxBytes(bs)) == s.(rx := PushAllUnchecked(s.rx, bs))
    decreases |bs|
  {
    if |bs| > 0 {
      assert RxBytes(bs)[0] == RxByte(bs[0]) && RxBytes(bs)[1..] == RxBytes(bs[1..]);
      RxBurst(Step(s, RxByte(bs[0])), bs[1..]);
    }
  }

  /** Up to 127 bytes received while the main loop is busy reach the next
      drain intact, in order. */
  lemma ReceiveThenDrain(s: Cmd, bs: seq<byte>)
    requires Inv(s) && IsEmpty(s.rx)
    requires |bs| < RX_SIZE
    ensures var s1 := s.(rx := PushAllUnchecked(s.rx, bs));
            Inv(s1) && Contents(s1.rx) == bs
            && Run(s, RxBytes(bs) + [Poll]) == Drain(s1)
  {
    RunAppend(s, RxBytes(bs), [Poll]);
    RxBurst(s, bs);
    var s1 := s.(rx := PushAllUnchecked(s.rx, bs));
    assert Contents(s1.rx) == bs by {
      EmptyIffNoContents(s.rx);
      UncheckedBurstWraps(s.rx, bs);
      assert Contents(s.rx) == [];
      assert [] + bs == bs;
    }
    assert Run(s1, [Poll]) == Drain(s1) by {
      assert [Poll][1..] == [];
    }
  }

  /** The missing overflow check: exactly 128 bytes received while the main
      loop is busy bring `head` back onto `tail`, so the next drain finds the
      ring empty and all 128 bytes are lost without a trace. */
  lemma OverrunLosesEverything(s: Cmd, bs: seq<byte>)
    requires Inv(s) && IsEmpty(s.rx)
    requires |bs| == RX_SIZE
    ensures var s' := Run(s, RxBytes(bs) + [Poll]);
            IsEmpty(s'.rx) && s'.line == s.line && s'.led == s.led && s'.out == s.out
  {
    RunAppend(s, RxBytes(bs), [Poll]);
    RxBurst(s, bs);
    var s1 := s.(rx := PushAllUnchecked(s.rx, bs));
    assert Contents(s1.rx) == [] by {
      EmptyIffNoContents(s.rx);
      UncheckedBurstWraps(s.rx, bs);
      EmptyIffNoContents(s1.rx);
    }
    assert Run(s1, [Poll]) == Drain(s1) by {
      assert [Poll][1..] == [];
    }
    assert FeedAll(CrOrLfEndsLine, s1.line, []).events == [];
    assert s.out + [] == s.out;
  }

  /** `led on` is a line the framer can deliver, and holds no NUL. */
  lemma LedOnDeliverable()
    ensures Deliverable(KW_LED_ON) && NUL !in KW_LED_ON
  {
    assert Printable("led on");
    PrintableHasNoControl("led on");
  }

  /** Processing the line `led on` prints `LED ON\r\n` and lights the LED,
      whatever its level before. */
  lemma LedOnDispatch(led: bool)
    ensures Dispatch([Line(KW_LED_ON)], led).out == LED_ON_TEXT
    ensures Dispatch([Line(KW_LED_ON)], led).led
  {
    assert CString(KW_LED_ON) == KW_LED_ON by {
      LedOnDeliverable();
      CStringOfNulFree(KW_LED_ON);
    }
    ParseKeyword(LedOn);
    DispatchOne(Line(KW_LED_ON), led);
  }

  /** End to end: from an empty ring and line buffer, `led on\r\n` typed at
      the terminal and one drain switch the LED on and print `LED ON\r\n`
      once; the `'\n'` after the `'\r'` is a blank line and prints nothing. */
  lemma LedOnScenario(s: Cmd)
    requires Inv(s) && IsEmpty(s.rx) && s.line == []
    ensures var s' := Run(s, RxBytes(KW_LED_ON + CRLF) + [Poll]);
            s'.led && s'.out == s.out + LED_ON_TEXT && s'.line == []
  {
    assert Terminator(true) == CRLF;
    assert |KW_LED_ON + CRLF| == 8;
    ReceiveThenDrain(s, KW_LED_ON + CRLF);
    LedOnDeliverable();
    OneLine(CrOrLfEndsLine, KW_LED_ON, true);
    LedOnDispatch(s.led);
  }
}
