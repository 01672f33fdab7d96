/** The line framer the three line-oriented UART examples run in their main
    loops: bytes pulled from the receive path are accumulated into a 64-byte
    line buffer until a terminator arrives. A line may hold at most 63 bytes (one slot is kept for
    the terminating NUL); a data byte arriving when 63 are held discards the
    whole partial line, reports it, and is itself dropped. */
module Framer {
  import opened Bytes

  /** `MESSAGE_BUFFER_SIZE` / `CMDLINE_SIZE` / `MAX_MSG_LEN`. */
  const BUFFER_SIZE: nat := 64

  /** The most bytes a line can hold: the buffer minus the NUL slot. */
  const MAX_LINE: nat := BUFFER_SIZE - 1

  /** Which bytes end a line. */
  datatype Convention =
    | LfEndsLine      // `'\r'` skipped, `'\n'` ends the line (echo firmware, ESP32 bridge)
    | CrOrLfEndsLine  // either `'\r'` or `'\n'` ends the line (command-line firmware)

  /** What the framer reports to the dispatcher. */
  datatype Event = Line(text: seq<byte>) | TooLong

  predicate IsTerminator(conv: Convention, c: byte)
  {
    c == LF || (conv == CrOrLfEndsLine && c == CR)
  }

  /** A byte that is stored in the line buffer under both conventions. */
  predicate IsData(c: byte)
  {
    c != CR && c != LF
  }

  /** What the line buffer may hold between two bytes. */
  predicate Partial(acc: seq<byte>)
  {
    |acc| <= MAX_LINE && forall i :: 0 <= i < |acc| ==> IsData(acc[i])
  }

  /** A line the framer can deliver: non-empty, at most 63 bytes, no CR/LF. */
  predicate Deliverable(text: seq<byte>)
  {
    0 < |text| && Partial(text)
  }

  predicate WellFormedEvent(e: Event)
  {
    e.Line? ==> Deliverable(e.text)
  }

  /** The line buffer after some input, and the events that input produced. */
  datatype Framed = Framed(acc: seq<byte>, events: seq<Event>)

  /** Consumes one byte: the new line buffer and the events (none or one)
      it produced. */
  function Feed(conv: Convention, acc: seq<byte>, c: byte): (res: Framed)
    requires Partial(acc)
    ensures Partial(res.acc) && |res.events| <= 1
    ensures conv == LfEndsLine && c == CR ==> res.acc == acc && res.events == []
    ensures IsTerminator(conv, c) && |acc| > 0 ==> res.acc == [] && res.events == [Line(acc)]
    ensures IsTerminator(conv, c) && |acc| == 0 ==> res.acc == [] && res.events == []
    ensures IsData(c) && |acc| < MAX_LINE ==> res.acc == acc + [c] && res.events == []
    ensures IsData(c) && |acc| == MAX_LINE ==> res.acc == [] && res.events == [TooLong]
  {
    if c == CR && conv == LfEndsLine then Framed(acc, [])
    else if c == LF || c == CR then
      if |acc| > 0 then Framed([], [Line(acc)]) else Framed([], [])
    else if |acc| < MAX_LINE then Framed(acc + [c], [])
    else Framed([], [TooLong])
  }

  /** Feeds a whole byte stream, collecting the events in order. */
  function FeedAll(conv: Convention, acc: seq<byte>, bs: seq<byte>): (res: Framed)
    requires Partial(acc)
    ensures Partial(res.acc)
    decreases |bs|
  {
    if |bs| == 0 then Framed(acc, [])
    else
      var step := Feed(conv, acc, bs[0]);
      var rest := FeedAll(conv, step.acc, bs[1..]);
      Framed(rest.acc, step.events + rest.events)
  }

  /** Every line the framer delivers is non-empty, fits the buffer and holds
      no CR or LF. */
  lemma {:induction false} FeedAllWellFormed(conv: Convention, acc: seq<byte>, bs: seq<byte>)
    requires Partial(acc)
    ensures forall e <- FeedAll(conv, acc, bs).events :: WellFormedEvent(e)
    decreases |bs|
  {
    if |bs| > 0 {
      var step := Feed(conv, acc, bs[0]);
      FeedAllWellFormed(conv, step.acc, bs[1..]);
      var rest := FeedAll(conv, step.acc, bs[1..]);
      assert FeedAll(conv, acc, bs).events == step.events + rest.events;
    }
  }

  /** Feeding one byte through `FeedAll` is `Feed`. */
  lemma FeedAllOne(conv: Convention, acc: seq<byte>, c: byte)
    requires Partial(acc)
    ensures FeedAll(conv, acc, [c]).acc == Feed(conv, acc, c).acc
    ensures FeedAll(conv, acc, [c]).events == Feed(conv, acc, c).events
  {
    assert [c][1..] == [];
  }

  /** Feeding `a + b` is feeding `a`, then `b` from where `a` left off. */
  lemma {:induction false} FeedAllAppend(conv: Convention, acc: seq<byte>, a: seq<byte>, b: seq<byte>)
    requires Partial(acc)
    ensures var first := FeedAll(conv, acc, a);
            var second := FeedAll(conv, first.acc, b);
            FeedAll(conv, acc, a + b).acc == second.acc
            && FeedAll(conv, acc, a + b).events == first.events + second.events
    decreases |a|
  {
    if |a| == 0 {
      assert a + b == b;
    } else {
      var step := Feed(conv, acc, a[0]);
      assert (a + b)[0] == a[0];
      assert (a + b)[1..] == a[1..] + b;
      FeedAllAppend(conv, step.acc, a[1..], b);
      var first' := FeedAll(conv, step.acc, a[1..]);
      var second := FeedAll(conv, first'.acc, b);
      assert step.events + (first'.events + second.events) == (step.events + first'.events) + second.events;
    }
  }

  /** A slice of data bytes holds only data bytes. */
  lemma DataSlice(s: seq<byte>, lo: nat, hi: nat)
    requires lo <= hi <= |s|
    requires forall i :: 0 <= i < |s| ==> IsData(s[i])
    ensures forall i :: 0 <= i < hi - lo ==> IsData(s[lo..hi][i])
  {
    forall i | 0 <= i < hi - lo
      ensures IsData(s[lo..hi][i])
    {
      assert s[lo..hi][i] == s[lo + i];
    }
  }

  /** Data bytes that fit are appended silently. */
  lemma {:induction false} FeedDataAppends(conv: Convention, acc: seq<byte>, s: seq<byte>)
    requires Partial(acc)
    requires |acc| + |s| <= MAX_LINE
    requires forall i :: 0 <= i < |s| ==> IsData(s[i])
    ensures FeedAll(conv, acc, s).acc == acc + s
    ensures FeedAll(conv, acc, s).events == []
    decreases |s|
  {
    if |s| == 0 {
      assert acc + s == acc;
    } else {
      var c, rest := s[0], s[1..];
      assert IsData(c);
      var step := Feed(conv, acc, c);
      assert step.acc == acc + [c] && step.events == [];
      assert forall i :: 0 <= i < |rest| ==> IsData(rest[i]) by {
        forall i | 0 <= i < |rest| ensures IsData(rest[i]) { assert rest[i] == s[i + 1]; }
      }
      FeedDataAppends(conv, acc + [c], rest);
      var tail := FeedAll(conv, acc + [c], rest);
      assert FeedAll(conv, acc, s) == Framed(tail.acc, step.events + tail.events);
      assert acc + [c] + rest == acc + s;
    }
  }

  /** The line terminator a sender appends: `"\r\n"` or `"\n"`. */
  function Terminator(crlf: bool): (t: seq<byte>)
  {
    if crlf then CRLF else [LF]
  }

  /** The bytes a sender puts on the wire for `lines`, each followed by the
      terminator. */
  function Encode(lines: seq<seq<byte>>, crlf: bool): (bs: seq<byte>)
    decreases |lines|
  {
    if |lines| == 0 then [] else lines[0] + Terminator(crlf) + Encode(lines[1..], crlf)
  }

  function AsLines(lines: seq<seq<byte>>): (evs: seq<Event>)
    ensures |evs| == |lines|
    decreases |lines|
  {
    if |lines| == 0 then [] else [Line(lines[0])] + AsLines(lines[1..])
  }

  /** A terminator reports the accumulated line and empties the buffer; the
      `'\n'` of a CRLF pair then finds the buffer empty and reports nothing. */
  lemma TerminatorDelivers(conv: Convention, l: seq<byte>, crlf: bool)
    requires Partial(l)
    ensures FeedAll(conv, l, Terminator(crlf)).acc == []
    ensures FeedAll(conv, l, Terminator(crlf)).events == if |l| > 0 then [Line(l)] else []
  {
    if crlf {
      assert Terminator(crlf) == [CR] + [LF];
      FeedAllAppend(conv, l, [CR], [LF]);
      FeedAllOne(conv, l, CR);
      FeedAllOne(conv, Feed(conv, l, CR).acc, LF);
    } else {
      FeedAllOne(conv, l, LF);
    }
  }

  /** One deliverable line and its terminator, framed from an empty buffer. */
  lemma OneLine(conv: Convention, l: seq<byte>, crlf: bool)
    requires Deliverable(l)
    ensures FeedAll(conv, [], l + Terminator(crlf)).acc == []
    ensures FeedAll(conv, [], l + Terminator(crlf)).events == [Line(l)]
  {
    FeedAllAppend(conv, [], l, Terminator(crlf));
    FeedDataAppends(conv, [], l);
    assert [] + l == l;
    TerminatorDelivers(conv, l, crlf);
  }

  /** Round trip: under either convention, framing the LF- or CRLF-terminated
      encoding of deliverable lines yields exactly those lines, in order, and
      leaves the line buffer empty. */
  lemma {:induction false} FramingRoundTrip(conv: Convention, lines: seq<seq<byte>>, crlf: bool)
    requires forall i :: 0 <= i < |lines| ==> Deliverable(lines[i])
    ensures FeedAll(conv, [], Encode(lines, crlf)).acc == []
    ensures FeedAll(conv, [], Encode(lines, crlf)).events == AsLines(lines)
    decreases |lines|
  {
    if |lines| > 0 {
      var first := lines[0] + Terminator(crlf);
      var rest := Encode(lines[1..], crlf);
      assert Encode(lines, crlf) == first + rest;
      FeedAllAppend(conv, [], first, rest);
      OneLine(conv, lines[0], crlf);
      FramingRoundTrip(conv, lines[1..], crlf);
    }
  }

  /** Overflow discards rather than truncates: from an empty buffer, 64 to
      127 data bytes with no terminator report one `TooLong`, and only the
      bytes after the 64th remain, so nothing of the discarded line leaks into
      the next one. */
  lemma OverflowDiscards(conv: Convention, s: seq<byte>)
    requires BUFFER_SIZE <= |s| <= BUFFER_SIZE + MAX_LINE
    requires forall i :: 0 <= i < |s| ==> IsData(s[i])
    ensures FeedAll(conv, [], s).acc == s[BUFFER_SIZE..]
    ensures FeedAll(conv, [], s).events == [TooLong]
  {
    var a, c, tail := s[..MAX_LINE], s[MAX_LINE], s[BUFFER_SIZE..];
    DataSlice(s, 0, MAX_LINE);
    DataSlice(s, BUFFER_SIZE, |s|);
    assert s == a + ([c] + tail);
    FeedAllAppend(conv, [], a, [c] + tail);
    FeedDataAppends(conv, [], a);
    assert [] + a == a;
    var full := FeedAll(conv, [], a);
    assert full.acc == a && full.events == [];
    FeedAllAppend(conv, a, [c], tail);
    FeedAllOne(conv, a, c);
    assert IsData(c) && |a| == MAX_LINE;
    var over := FeedAll(conv, a, [c]);
    assert over.acc == [] && over.events == [TooLong];
    FeedDataAppends(conv, [], tail);
    assert [] + tail == tail;
    var after := FeedAll(conv, [], tail);
    assert after.acc == tail && after.events == [];
    assert FeedAll(conv, a, [c] + tail).events == [TooLong] + [];
  }


  /** `n` overflow reports in a row. */
  function TooLongs(n: nat): (evs: seq<Event>)
    ensures |evs| == n && forall i :: 0 <= i < n ==> evs[i] == TooLong
  {
    if n == 0 then [] else [TooLong] + TooLongs(n - 1)
  }

  /** A run of data bytes of any length from an empty buffer: every 64th
      byte reports `TooLong` and is lost with the 63 before it, and what is
      left is the last `|s| mod 64` bytes. */
  lemma {:induction false} DataRunDiscards(conv: Convention, s: seq<byte>)
    requires forall i :: 0 <= i < |s| ==> IsData(s[i])
    ensures FeedAll(conv, [], s).events == TooLongs(|s| / BUFFER_SIZE)
    ensures FeedAll(conv, [], s).acc == s[|s| - |s| % BUFFER_SIZE..]
    decreases |s|
  {
    if |s| < BUFFER_SIZE {
      FeedDataAppends(conv, [], s);
      assert [] + s == s;
      assert |s| / BUFFER_SIZE == 0 && |s| % BUFFER_SIZE == |s|;
      assert s[0..] == s;
    } else {
      var block, rest := s[..BUFFER_SIZE], s[BUFFER_SIZE..];
      DataSlice(s, 0, BUFFER_SIZE);
      DataSlice(s, BUFFER_SIZE, |s|);
      assert s[0..BUFFER_SIZE] == block && s[BUFFER_SIZE..|s|] == rest;
      assert s == block + rest;
      FeedAllAppend(conv, [], block, rest);
      OverflowDiscards(conv, block);
      assert block[BUFFER_SIZE..] == [];
      DataRunDiscards(conv, rest);
      var n, m := |rest| / BUFFER_SIZE, |rest| % BUFFER_SIZE;
      assert |rest| == n * BUFFER_SIZE + m && m < BUFFER_SIZE;
      assert |s| == (n + 1) * BUFFER_SIZE + m;
      assert |s| / BUFFER_SIZE == n + 1 && |s| % BUFFER_SIZE == m;
      assert rest[|rest| - m..] == s[|s| - m..];
      assert TooLongs(n + 1) == [TooLong] + TooLongs(n);
    }
  }

  /** A blank line, including the `'\n'` after a `'\r'`, reports nothing. */
  lemma BlankLineIsSilent(conv: Convention)
    ensures FeedAll(conv, [], Terminator(true)).events == []
    ensures FeedAll(conv, [], Terminator(false)).events == []
  {
    TerminatorDelivers(conv, [], true);
    TerminatorDelivers(conv, [], false);
  }
}
