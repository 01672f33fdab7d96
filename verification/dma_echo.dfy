/** The DMA echo firmware: after a greeting sent by DMA, reception is armed
    for blocks of exactly four bytes; each completed block toggles the LED,
    is copied with CRLF appended into a six-byte echo buffer, is echoed by
    DMA if no transfer is in flight (and silently dropped otherwise), and
    reception is re-armed.

    DMA starts are recorded with the bytes their buffer held at the start;
    receive arms are recorded with their length. */
module DmaEcho {
  import opened Bytes

  /** `RX_SIZE`: the length of every receive block. */
  const RX_SIZE: nat := 4

  /** The echo length: the block followed by CRLF. */
  const ECHO_SIZE: nat := RX_SIZE + 2

  /** `txGreeting`, as `strlen` measures it (the array's NUL is not sent). */
  const GREETING: seq<byte> := Ascii("DMA UART Demo: Send 4 bytes to see LED toggle + echo!\r\n")

  /** The four bytes the receive DMA wrote into `rxBuffer`. */
  type Block = s: seq<byte> | |s| == RX_SIZE witness [0, 0, 0, 0]

  /** The static buffer a transmit DMA reads from. */
  datatype Source = GreetingBuf | EchoBuf

  /** One `HAL_UART_Transmit_DMA` call: its buffer and the bytes that buffer
      held, over the length passed, when the call was made. */
  datatype Transfer = Transfer(source: Source, bytes: seq<byte>)

  /** `txEchoBuf`, `txInProgress`, the LED on PA5, every transmit DMA
      started, and the length of every receive DMA armed. */
  datatype Dma = Dma(echoBuf: seq<byte>, txInProgress: bool, led: bool,
                     transfers: seq<Transfer>, rxArms: seq<nat>)

  datatype DmaEvent =
    | RxComplete(block: Block)  // `HAL_UART_RxCpltCallback`: four bytes arrived
    | TxComplete                // `HAL_UART_TxCpltCallback`: a transmit DMA finished

  /** After `main`'s set-up: the flag is raised before the greeting DMA
      starts, then four bytes are armed. The echo buffer is zero-initialised
      static storage and the LED is driven low. */
  function Init(): (s: Dma)
    ensures s.txInProgress && !s.led
    ensures s.transfers == [Transfer(GreetingBuf, GREETING)] && |GREETING| == 55
    ensures s.rxArms == [RX_SIZE] && |s.echoBuf| == ECHO_SIZE
  {
    Dma([0, 0, 0, 0, 0, 0], true, false, [Transfer(GreetingBuf, GREETING)], [RX_SIZE])
  }

  /** The receive-complete callback: toggle, copy with CRLF, echo only when
      the transmitter is free, and re-arm for four bytes in every case. */
  function OnRxComplete(s: Dma, block: Block): (s': Dma)
    ensures s'.echoBuf == block + CRLF && |s'.echoBuf| == ECHO_SIZE
    ensures s'.led == !s.led
    ensures s'.txInProgress
    ensures s'.rxArms == s.rxArms + [RX_SIZE]
    ensures !s.txInProgress ==> s'.transfers == s.transfers + [Transfer(EchoBuf, block + CRLF)]
    ensures s.txInProgress ==> s'.transfers == s.transfers
  {
    var led := !s.led;
    var echoBuf := block + CRLF;
    var s1 := s.(led := led, echoBuf := echoBuf);
    var s2 :=
      if !s1.txInProgress then
        s1.(txInProgress := true, transfers := s1.transfers + [Transfer(EchoBuf, echoBuf[..ECHO_SIZE])])
      else s1;
    assert echoBuf[..ECHO_SIZE] == echoBuf;
    s2.(rxArms := s2.rxArms + [RX_SIZE])
  }

  /** The transmit-complete callback: the transmitter is free again. */
  function OnTxComplete(s: Dma): (s': Dma)
    ensures !s'.txInProgress
    ensures s'.transfers == s.transfers && s'.echoBuf == s.echoBuf
    ensures s'.led == s.led && s'.rxArms == s.rxArms
  {
    s.(txInProgress := false)
  }

  /** One event: a completed block runs the receive callback, a completed
      transfer the transmit callback. */
  function Step(s: Dma, e: DmaEvent): (s': Dma)
    ensures e.RxComplete? ==> s'.led == !s.led && s'.echoBuf == e.block + CRLF
                              && s'.rxArms == s.rxArms + [RX_SIZE] && s'.txInProgress
    ensures e.RxComplete? && !s.txInProgress ==> s'.transfers == s.transfers + [Transfer(EchoBuf, e.block + CRLF)]
    ensures e.RxComplete? && s.txInProgress ==> s'.transfers == s.transfers
    ensures e.TxComplete? ==> !s'.txInProgress && s'.transfers == s.transfers && s'.led == s.led
                              && s'.echoBuf == s.echoBuf && s'.rxArms == s.rxArms
  {
    match e
    case RxComplete(block) => OnRxComplete(s, block)
    case TxComplete => OnTxComplete(s)
  }

  function Run(s: Dma, evs: seq<DmaEvent>): (s': Dma)
    decreases |evs|
  {
    if |evs| == 0 then s else Run(Step(s, evs[0]), evs[1..])
  }

  /** How many blocks, and how many transmit completions, a trace holds. */
  function Blocks(evs: seq<DmaEvent>): (n: nat)
    ensures n <= |evs|
    decreases |evs|
  {
    if |evs| == 0 then 0 else (if evs[0].RxComplete? then 1 else 0) + Blocks(evs[1..])
  }

  function TxDones(evs: seq<DmaEvent>): (n: nat)
    ensures n <= |evs|
    decreases |evs|
  {
    if |evs| == 0 then 0 else (if evs[0].TxComplete? then 1 else 0) + TxDones(evs[1..])
  }

  /** The LED level after `n` toggles. */
  function Toggled(led: bool, n: nat): bool
  {
    if n % 2 == 0 then led else !led
  }

  /** The LED toggles exactly once per block: its level is the initial level
      flipped once for each block received, whatever the transmitter did. */
  lemma {:induction false} LedTogglesPerBlock(s: Dma, evs: seq<DmaEvent>)
    ensures Run(s, evs).led == Toggled(s.led, Blocks(evs))
    decreases |evs|
  {
    if |evs| > 0 {
      LedTogglesPerBlock(Step(s, evs[0]), evs[1..]);
    }
  }

  /** Reception is re-armed for exactly four bytes after every block, and at
      no other time. */
  lemma {:induction false} RearmedPerBlock(s: Dma, evs: seq<DmaEvent>)
    ensures |Run(s, evs).rxArms| == |s.rxArms| + Blocks(evs)
    ensures Run(s, evs).rxArms[..|s.rxArms|] == s.rxArms
    ensures forall i :: |s.rxArms| <= i < |Run(s, evs).rxArms| ==> Run(s, evs).rxArms[i] == RX_SIZE
    decreases |evs|
  {
    if |evs| > 0 {
      var s1 := Step(s, evs[0]);
      RearmedPerBlock(s1, evs[1..]);
      assert s1.rxArms[..|s.rxArms|] == s.rxArms;
    }
  }

  /** Every echo started is six bytes ending in CRLF. */
  predicate EchoesWellFormed(ts: seq<Transfer>)
  {
    forall i :: 0 <= i < |ts| && ts[i].source == EchoBuf ==>
      |ts[i].bytes| == ECHO_SIZE && ts[i].bytes[RX_SIZE..] == CRLF
  }

  /** What every reachable state satisfies: the greeting is the first
      transfer, every later one is an echo, and the echo buffer holds six
      bytes. */
  ghost predicate Inv(s: Dma)
  {
    && |s.transfers| >= 1 && s.transfers[0] == Transfer(GreetingBuf, GREETING)
    && (forall i :: 1 <= i < |s.transfers| ==> s.transfers[i].source == EchoBuf)
    && EchoesWellFormed(s.transfers)
    && |s.echoBuf| == ECHO_SIZE
  }

  lemma StepKeepsInv(s: Dma, e: DmaEvent)
    requires Inv(s)
    ensures Inv(Step(s, e))
  {
    var s' := Step(s, e);
    if e.RxComplete? && !s.txInProgress {
      var t := Transfer(EchoBuf, e.block + CRLF);
      assert s'.transfers == s.transfers + [t];
      assert t.bytes[RX_SIZE..] == CRLF;
    }
  }

  lemma {:induction false} RunKeepsInv(s: Dma, evs: seq<DmaEvent>)
    requires Inv(s)
    ensures Inv(Run(s, evs))
    decreases |evs|
  {
    if |evs| > 0 {
      StepKeepsInv(s, evs[0]);
      RunKeepsInv(Step(s, evs[0]), evs[1..]);
    }
  }

  /** At most one transmit DMA is started per completion of the previous
      one: counting the greeting, the number of transfers started never
      exceeds one more than the completions seen, and is one less than that
      bound while a transfer is in flight. */
  lemma {:induction false} OneTransferPerCompletion(s: Dma, evs: seq<DmaEvent>)
    requires |s.transfers| + (if s.txInProgress then 0 else 1) <= 1
    ensures |Run(s, evs).transfers| + (if Run(s, evs).txInProgress then 0 else 1) <= 1 + TxDones(evs)
  {
    TransfersBounded(s, evs, 0);
  }

  lemma {:induction false} TransfersBounded(s: Dma, evs: seq<DmaEvent>, done: nat)
    requires |s.transfers| + (if s.txInProgress then 0 else 1) <= 1 + done
    ensures |Run(s, evs).transfers| + (if Run(s, evs).txInProgress then 0 else 1) <= 1 + done + TxDones(evs)
    decreases |evs|
  {
    if |evs| > 0 {
      var e := evs[0];
      var s1 := Step(s, e);
      var d1 := done + (if e.TxComplete? then 1 else 0);
      assert |s1.transfers| + (if s1.txInProgress then 0 else 1) <= 1 + d1;
      TransfersBounded(s1, evs[1..], d1);
    }
  }

  /** From reset, every trace keeps the invariant, starts at most one
      transmit DMA per completion after the greeting, toggles the LED once
      per block and re-arms once per block. */
  lemma FromReset(evs: seq<DmaEvent>)
    ensures Inv(Run(Init(), evs))
    ensures |Run(Init(), evs).transfers| <= 1 + TxDones(evs)
    ensures Run(Init(), evs).led == Toggled(false, Blocks(evs))
    ensures |Run(Init(), evs).rxArms| == 1 + Blocks(evs)
  {
    assert |GREETING| == 55;
    RunKeepsInv(Init(), evs);
    OneTransferPerCompletion(Init(), evs);
    LedTogglesPerBlock(Init(), evs);
    RearmedPerBlock(Init(), evs);
  }

  /** Two blocks with no completion between them: the second echo is dropped,
      although both blocks toggle the LED and re-arm reception. */
  lemma SecondEchoDropped(s: Dma, a: Block, b: Block)
    requires !s.txInProgress
    ensures var s' := Run(s, [RxComplete(a), RxComplete(b)]);
            s'.transfers == s.transfers + [Transfer(EchoBuf, a + CRLF)]
            && s'.led == s.led && s'.rxArms == s.rxArms + [RX_SIZE, RX_SIZE]
  {
    var s1 := Step(s, RxComplete(a));
    assert Run(s, [RxComplete(a), RxComplete(b)]) == Run(s1, [RxComplete(b)]);
    assert Run(s1, [RxComplete(b)]) == Step(s1, RxComplete(b));
  }

  /** The copy into `txEchoBuf` precedes the busy check, so a block arriving
      while its predecessor's echo is still in flight overwrites the buffer
      that DMA is reading: the buffer no longer holds the bytes the transfer
      was started with. */
  lemma EchoBufferRewrittenInFlight(s: Dma, a: Block, b: Block)
    requires !s.txInProgress && a != b
    ensures var s1 := OnRxComplete(s, a);
            var s2 := OnRxComplete(s1, b);
            s1.transfers[|s1.transfers| - 1] == Transfer(EchoBuf, a + CRLF)
            && s2.transfers == s1.transfers
            && s2.echoBuf == b + CRLF
            && s2.echoBuf != s1.transfers[|s1.transfers| - 1].bytes
  {
    var s1 := OnRxComplete(s, a);
    assert (b + CRLF)[..RX_SIZE] == b && (a + CRLF)[..RX_SIZE] == a;
  }
}
