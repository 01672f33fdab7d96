/** The ESP32-C3 side of the STM32/ESP32 link: each pass of the Arduino
    `loop` reads every byte the STM32 port has available, frames lines
    ended by `'\n'` (skipping `'\r'`), reports each on the USB monitor, and
    every two seconds sends `Heartbeat\r\n` to the STM32.

    The two serial ports are output logs: `monitor` (`Serial`) and `link`
    (`SerialSTM32`). `println` appends CRLF, as Arduino's `Print` does. */
module Esp32Bridge {
  import opened Bytes
  import opened Framer

  /** The heartbeat period, in milliseconds. */
  const HEARTBEAT_PERIOD: nat := 2000

  const HEARTBEAT_LINE: seq<byte> := Ascii("Heartbeat\r\n")
  const RECEIVED_PREFIX: seq<byte> := Ascii("Received: ")
  const TOO_LONG_LINE: seq<byte> := Ascii("Error: Received message too long") + CRLF
  const SENT_LINE: seq<byte> := Ascii("Sent: Heartbeat") + CRLF
  const STARTED_LINE: seq<byte> := Ascii("UART Communication Started") + CRLF

  /** `receivedMsg` up to `msgIndex`, the `static` `lastSend`, and the two
      output logs. `unsigned long` is 32 bits on the ESP32. */
  datatype Bridge = Bridge(line: seq<byte>, lastSend: u32, monitor: seq<byte>, link: seq<byte>)

  /** After `setup`: the start banner on the monitor, nothing on the link. */
  function Setup(): (s: Bridge)
    ensures Partial(s.line) && s.link == [] && s.monitor == STARTED_LINE
  {
    Bridge([], 0, STARTED_LINE, [])
  }

  /** What the monitor shows for one framer event: the line is printed as a
      C string, so up to its first NUL. */
  function Report(e: Event): (r: seq<byte>)
    ensures |r| >= 2 && r[|r| - 2..] == CRLF
  {
    match e
    case Line(text) =>
      var r := RECEIVED_PREFIX + CString(text) + CRLF;
      assert r[|r| - 2..] == CRLF;
      r
    case TooLong =>
      assert TOO_LONG_LINE[|TOO_LONG_LINE| - 2..] == CRLF;
      TOO_LONG_LINE
  }

  function Reports(evs: seq<Event>): (r: seq<byte>)
    decreases |evs|
  {
    if |evs| == 0 then [] else Report(evs[0]) + Reports(evs[1..])
  }

  lemma {:induction false} ReportsAppend(a: seq<Event>, b: seq<Event>)
    ensures Reports(a + b) == Reports(a) + Reports(b)
    decreases |a|
  {
    if |a| == 0 {
      assert a + b == b;
    } else {
      assert (a + b)[0] == a[0];
      assert (a + b)[1..] == a[1..] + b;
      ReportsAppend(a[1..], b);
      assert Report(a[0]) + (Reports(a[1..]) + Reports(b)) == (Report(a[0]) + Reports(a[1..])) + Reports(b);
    }
  }

  /** The `while (SerialSTM32.available())` loop over the bytes available in
      this pass, byte by byte. */
  function Read(s: Bridge, bs: seq<byte>): (s': Bridge)
    requires Partial(s.line)
    ensures Partial(s'.line) && s'.lastSend == s.lastSend && s'.link == s.link
    decreases |bs|
  {
    if |bs| == 0 then s
    else
      var f := Feed(LfEndsLine, s.line, bs[0]);
      Read(s.(line := f.acc, monitor := s.monitor + Reports(f.events)), bs[1..])
  }

  /** The bridge after reporting the events of `framed`, with the line
      buffer left at `framed.acc`. */
  function Settle(s: Bridge, framed: Framed): (s': Bridge)
  {
    s.(line := framed.acc, monitor := s.monitor + Reports(framed.events))
  }

  /** Reporting some events and then the rest is reporting all of them. */
  lemma SettleAppend(s: Bridge, first: seq<Event>, rest: Framed)
    ensures Settle(s.(monitor := s.monitor + Reports(first)), rest)
            == Settle(s, Framed(rest.acc, first + rest.events))
  {
    var a, b := Reports(first), Reports(rest.events);
    assert Reports(first + rest.events) == a + b by { ReportsAppend(first, rest.events); }
    assert s.monitor + a + b == s.monitor + (a + b);
  }

  /** Reading byte by byte is framing the whole stream, then reporting its
      events in order; the link is untouched. */
  lemma {:induction false} ReadIsFrameThenReport(s: Bridge, bs: seq<byte>)
    requires Partial(s.line)
    ensures Read(s, bs) == Settle(s, FeedAll(LfEndsLine, s.line, bs))
    decreases |bs|
  {
    if |bs| == 0 {
      assert s.monitor + [] == s.monitor;
    } else {
      var f := Feed(LfEndsLine, s.line, bs[0]);
      var s1 := s.(line := f.acc, monitor := s.monitor + Reports(f.events));
      var rest := FeedAll(LfEndsLine, f.acc, bs[1..]);
      calc {
        Read(s, bs);
        Read(s1, bs[1..]);
        { ReadIsFrameThenReport(s1, bs[1..]); }
        Settle(s1, rest);
        { SettleAppend(s.(line := f.acc), f.events, rest); }
        Settle(s, Framed(rest.acc, f.events + rest.events));
        Settle(s, FeedAll(LfEndsLine, s.line, bs));
      }
    }
  }

  /** The body of the read loop for one byte `c`, as the sketch writes it. */
  method HandleByte(s: Bridge, c: byte) returns (s': Bridge)
    requires Partial(s.line)
    ensures var f := Feed(LfEndsLine, s.line, c);
            s' == s.(line := f.acc, monitor := s.monitor + Reports(f.events))
  {
    s' := s;
    assert Reports([]) == [];
    if c == CR {
      assert s.monitor + [] == s.monitor;
      return;
    }
    if c == LF {
      if |s.line| > 0 {
        assert Reports([Line(s.line)]) == Report(Line(s.line)) + [];
        s' := s'.(monitor := s'.monitor + RECEIVED_PREFIX + CString(s.line) + CRLF);
        assert s'.monitor == s.monitor + Reports([Line(s.line)]);
        s' := s'.(line := []);
      } else {
        assert s.monitor + [] == s.monitor;
      }
    } else {
      if |s.line| < MAX_LINE {
        s' := s'.(line := s.line + [c]);
        assert s.monitor + [] == s.monitor;
      } else {
        assert Reports([TooLong]) == TOO_LONG_LINE + [];
        s' := s'.(monitor := s'.monitor + TOO_LONG_LINE, line := []);
      }
    }
  }

  /** The read loop itself, over the bytes available. */
  method ReadLoop(s: Bridge, avail: seq<byte>) returns (s': Bridge)
    requires Partial(s.line)
    ensures s'.line == FeedAll(LfEndsLine, s.line, avail).acc
    ensures s'.monitor == s.monitor + Reports(FeedAll(LfEndsLine, s.line, avail).events)
    ensures s'.lastSend == s.lastSend && s'.link == s.link
  {
    ReadIsFrameThenReport(s, avail);
    s' := s;
    var i := 0;
    while i < |avail|
      invariant 0 <= i <= |avail| && Partial(s'.line)
      invariant Read(s', avail[i..]) == Read(s, avail)
    {
      var c := avail[i];
      assert avail[i..][0] == c && avail[i..][1..] == avail[i + 1..];
      s' := HandleByte(s', c);
      i := i + 1;
    }
    assert avail[i..] == [];
  }

  /** The heartbeat check at `millis() == now`: strictly more than 2000 ms
      since the last one, measured with wrapping 32-bit subtraction. */
  function HeartbeatCheck(s: Bridge, now: u32): (s': Bridge)
    ensures s'.line == s.line
    ensures Sub32(now, s.lastSend) > HEARTBEAT_PERIOD ==>
              s'.link == s.link + HEARTBEAT_LINE && s'.monitor == s.monitor + SENT_LINE && s'.lastSend == now
    ensures Sub32(now, s.lastSend) <= HEARTBEAT_PERIOD ==> s' == s
  {
    if Sub32(now, s.lastSend) > HEARTBEAT_PERIOD then
      s.(link := s.link + HEARTBEAT_LINE, monitor := s.monitor + SENT_LINE, lastSend := now)
    else s
  }

  /** One pass of `loop`: drain what is available, then the heartbeat
      check. Reading never sends nor touches `lastSend`, so a pass sends one
      heartbeat exactly when more than 2000 ms have passed on the wrapping
      clock since the last one, and then restarts the interval at `now`. */
  function Loop(s: Bridge, avail: seq<byte>, now: u32): (s': Bridge)
    requires Partial(s.line)
    ensures Partial(s'.line)
    ensures s'.line == FeedAll(LfEndsLine, s.line, avail).acc
    ensures Sub32(now, s.lastSend) > HEARTBEAT_PERIOD ==> s'.link == s.link + HEARTBEAT_LINE && s'.lastSend == now
    ensures Sub32(now, s.lastSend) <= HEARTBEAT_PERIOD ==> s'.link == s.link && s'.lastSend == s.lastSend
    ensures s'.monitor == s.monitor + Reports(FeedAll(LfEndsLine, s.line, avail).events)
                          + (if Sub32(now, s.lastSend) > HEARTBEAT_PERIOD then SENT_LINE else [])
  {
    ReadIsFrameThenReport(s, avail);
    HeartbeatCheck(Read(s, avail), now)
  }

  /** One pass of `loop`: the bytes the STM32 port had available, and the
      clock. */
  datatype Pass = Pass(avail: seq<byte>, now: u32)

  function Run(s: Bridge, passes: seq<Pass>): (s': Bridge)
    requires Partial(s.line)
    ensures Partial(s'.line)
    decreases |passes|
  {
    if |passes| == 0 then s else Run(Loop(s, passes[0].avail, passes[0].now), passes[1..])
  }

  /** The link carries nothing but whole heartbeats. */
  predicate OnlyHeartbeats(link: seq<byte>)
    decreases |link|
  {
    |link| == 0
    || (|link| >= |HEARTBEAT_LINE| && link[..|HEARTBEAT_LINE|] == HEARTBEAT_LINE
        && OnlyHeartbeats(link[|HEARTBEAT_LINE|..]))
  }

  lemma {:induction false} OnlyHeartbeatsAppend(link: seq<byte>)
    requires OnlyHeartbeats(link)
    ensures OnlyHeartbeats(link + HEARTBEAT_LINE)
    decreases |link|
  {
    var n := |HEARTBEAT_LINE|;
    if |link| == 0 {
      assert link + HEARTBEAT_LINE == HEARTBEAT_LINE;
      assert HEARTBEAT_LINE[..n] == HEARTBEAT_LINE;
      assert HEARTBEAT_LINE[n..] == [];
    } else {
      OnlyHeartbeatsAppend(link[n..]);
      assert (link + HEARTBEAT_LINE)[..n] == link[..n];
      assert (link + HEARTBEAT_LINE)[n..] == link[n..] + HEARTBEAT_LINE;
    }
  }

  /** Whatever the STM32 sends and however the clock runs, the ESP32 only
      ever writes complete `Heartbeat\r\n` lines to the link. */
  lemma {:induction false} LinkCarriesOnlyHeartbeats(s: Bridge, passes: seq<Pass>)
    requires Partial(s.line) && OnlyHeartbeats(s.link)
    ensures OnlyHeartbeats(Run(s, passes).link)
    decreases |passes|
  {
    if |passes| > 0 {
      var p := passes[0];
      var r := Read(s, p.avail);
      if Sub32(p.now, r.lastSend) > HEARTBEAT_PERIOD {
        OnlyHeartbeatsAppend(r.link);
      }
      LinkCarriesOnlyHeartbeats(Loop(s, p.avail, p.now), passes[1..]);
    }
  }

  /** What the monitor shows for lines received intact. */
  function Shown(lines: seq<seq<byte>>): (r: seq<byte>)
    decreases |lines|
  {
    if |lines| == 0 then [] else RECEIVED_PREFIX + lines[0] + CRLF + Shown(lines[1..])
  }

  lemma {:induction false} ReportsOfLines(lines: seq<seq<byte>>)
    requires forall i :: 0 <= i < |lines| ==> NUL !in lines[i]
    ensures Reports(AsLines(lines)) == Shown(lines)
    decreases |lines|
  {
    if |lines| > 0 {
      assert AsLines(lines)[0] == Line(lines[0]);
      assert AsLines(lines)[1..] == AsLines(lines[1..]);
      CStringOfNulFree(lines[0]);
      ReportsOfLines(lines[1..]);
    }
  }

  /** Round trip over the link: when one pass finds the STM32's lines, each
      of at most 63 bytes, NUL-free and terminated by CRLF or LF, the monitor
      shows each of them once, in order, prefixed by `Received: `, and the
      line buffer is left empty. */
  lemma MonitorShowsLines(s: Bridge, lines: seq<seq<byte>>, crlf: bool)
    requires s.line == []
    requires forall i :: 0 <= i < |lines| ==> Deliverable(lines[i]) && NUL !in lines[i]
    ensures var r := Read(s, Encode(lines, crlf));
            r.line == [] && r.monitor == s.monitor + Shown(lines) && r.link == s.link
  {
    ReadIsFrameThenReport(s, Encode(lines, crlf));
    FramingRoundTrip(LfEndsLine, lines, crlf);
    ReportsOfLines(lines);
  }
}
