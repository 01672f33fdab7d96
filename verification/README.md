# STM32 PlatformIO serial examples: a Dafny model

This project models the byte-oriented serial pipeline of the STM32
PlatformIO playground examples, and the PWM dimming loop.

The pipeline parts modelled:

- **The STM32F030 side of the STM32/ESP32 link.**
  - A checked 128-byte receive ring is filled by the receive-complete interrupt.
  - The main loop frames the ring's bytes into lines ended by LF, ignoring CR.
  - Each line is answered with `Echo Sent`. A `Heartbeat` line also gets the heartbeat echoed first.
  - A `Status: OK` line is sent every three seconds, and the LED toggles every 500 ms.
  - All output goes through a 256-byte transmit ring. It is sent one byte per transmit-complete interrupt and guarded by a busy flag.
- **The ring-buffer command firmware.**
  - The receive ring has no full check.
  - A line is ended by CR or by LF.
  - Commands are matched exactly: `help`, `led on`, `led off`, `ping`, `version`. Anything else is unknown.
  - Replies are printed with a blocking transmit.
- **The ESP32-C3 side of the link.**
  - The same framer reports each line on the USB monitor.
  - A `Heartbeat` line is sent to the STM32 every two seconds.
- **The DMA echo.**
  - Four-byte receive blocks each toggle the LED.
  - Each block is echoed with CRLF when no transfer is in flight, and dropped otherwise.
  - Reception is re-armed after every block.
- **The PWM dimming loop.** The duty cycle runs as a triangle wave between 0 and 1000 in steps of 10.

Interrupt callbacks and main-loop phases are atomic events. Each event is applied to an immutable state record. Outputs are modelled as follows:

- every HAL or Arduino transmit or print is an append to an output log;
- every GPIO write is a state field;
- every DMA start is recorded with the bytes its buffer held at the start.

The modules:

| module | file | what it holds |
|---|---|---|
| `Bytes` | `bytes.dfy` | bytes, ASCII literals, C strings (the prefix before the first NUL, which `strcmp` and `println` see), 32-bit wrapping subtraction |
| `Ring` | `ring.dfy` | the circular buffer with head and tail taken modulo its size; the checked and unchecked pushes, pop and FIFO order |
| `Framer` | `framer.dfy` | the line framer shared by the three UART programs, for both terminator conventions |
| `TxQueue` | `txqueue.dfy` | `UART_Transmit_Data` and the transmit-complete callback of the STM32F030 firmware |
| `EchoFirmware` | `echo_firmware.dfy` | the STM32F030 firmware as an event system |
| `CommandFirmware` | `command_firmware.dfy` | the ring-buffer command firmware as an event system |
| `Esp32Bridge` | `esp32_bridge.dfy` | the ESP32-C3 sketch |
| `DmaEcho` | `dma_echo.dfy` | the DMA echo callbacks |
| `PwmDimming` | `pwm_dimming.dfy` | the duty-cycle loop |

## Model

| member | source | states |
|---|---|---|
| Bytes.CString | examples/04_UART_Comm/stm32-pio-uartcommesp32/STM32F030_UART/src/main.c:57-60 | the text `strcmp` compares is the longest NUL-free prefix of the buffer, and it stops only at a NUL |
| Bytes.CStringOfNulFree | examples/04_UART_Comm/stm32-pio-uartcommesp32/ESP32C3_UART/src/main.cpp:31-33 | a line holding no NUL is compared and printed whole |
| Bytes.Sub32 | examples/04_UART_Comm/stm32-pio-uartcommesp32/STM32F030_UART/src/main.c:85 | `uint32_t` subtraction is the plain difference, or the difference plus 2^32 when the clock has wrapped past `last` |
| Bytes.PrintableHasNoControl | examples/04_UART_Comm/stm32-pio-uartcommesp32/STM32F030_UART/src/main.c:60-62 | a printable literal holds no NUL, CR or LF byte |
| Ring.NextIsMod | examples/04_UART_Comm/stm32-pio-uartcommesp32/STM32F030_UART/src/main.c:47 | the index step is `(i + 1) % N` |
| Ring.AdvanceHead | examples/04_UART_Comm/stm32-pio-uartcommesp32/STM32F030_UART/src/main.c:102-105 | storing at `head` and advancing it when not full appends the byte at the end of the unread contents |
| Ring.WriteSpareSlot | examples/04_UART_Comm/stm32-pio-uartcommesp32/STM32F030_UART/src/main.c:102-109 | the unconditional write at `head` lands in the spare slot and leaves the unread bytes untouched |
| Ring.Push | examples/04_UART_Comm/stm32-pio-uartcommesp32/STM32F030_UART/src/main.c:100-112 | the checked receive push: when not full, the byte joins the end of the contents and `head` advances mod N; when full, `head` stays, the newest byte is dropped and the contents are unchanged |
| Ring.PushUnchecked | examples/04_UART_Comm/stm32-pio-uartringbuffer/src/main.c:111-124 | the unchecked push always advances `head`; it appends the byte unless the buffer held N-1 bytes, in which case the buffer reads as empty |
| Ring.Pop | examples/04_UART_Comm/stm32-pio-uartcommesp32/STM32F030_UART/src/main.c:45-47 | the drain takes the oldest byte, the one at `tail`, and the remaining contents are the rest in order |
| Ring.RingIsFifo | examples/04_UART_Comm/stm32-pio-uartcommesp32/STM32F030_UART/src/main.c:45-47 | over any mix of pushes and pops, bytes popped followed by bytes still held equal the bytes held at first followed by bytes accepted: FIFO order |
| Ring.BurstKeepsOldest | examples/04_UART_Comm/stm32-pio-uartcommesp32/STM32F030_UART/src/main.c:100-108 | a burst into the checked ring keeps exactly the first bytes that fit and drops the newest rest |
| Ring.UncheckedBurstWraps | examples/04_UART_Comm/stm32-pio-uartringbuffer/src/main.c:116-119 | a burst into the unchecked ring is appended while it fits in N-1; when it fills all N slots, the ring reads as empty |
| Framer.Feed | examples/04_UART_Comm/stm32-pio-uartcommesp32/STM32F030_UART/src/main.c:49-79 | per byte: CR is skipped under the LF convention; a terminator delivers a non-empty line and resets, or does nothing on an empty line; a data byte is appended below 63, and at 63 it produces the too-long event, resets and is itself dropped; the index never exceeds 63 |
| Framer.FeedAllWellFormed | examples/04_UART_Comm/stm32-pio-uartringbuffer/src/main.c:74-97 | every line delivered is non-empty, at most 63 bytes long and free of terminators |
| Framer.FeedAllAppend | examples/04_UART_Comm/stm32-pio-uartcommesp32/ESP32C3_UART/src/main.cpp:20-46 | framing a stream in two parts, carrying the partial line across, is framing it whole |
| Framer.FeedDataAppends | examples/04_UART_Comm/stm32-pio-uartcommesp32/ESP32C3_UART/src/main.cpp:37-39 | data bytes that fit are accumulated in order and deliver nothing |
| Framer.OneLine | examples/04_UART_Comm/stm32-pio-uartcommesp32/ESP32C3_UART/src/main.cpp:28-35 | a line of at most 63 data bytes followed by CRLF or LF is delivered once and leaves the buffer empty |
| Framer.FramingRoundTrip | examples/04_UART_Comm/stm32-pio-uartringbuffer/src/main.c:67-98 | encoding well-formed lines with CRLF or LF terminators and framing the result gives back exactly those lines, under both conventions |
| Framer.OverflowDiscards | examples/04_UART_Comm/stm32-pio-uartcommesp32/STM32F030_UART/src/main.c:72-79 | 64 to 127 data bytes in a row give one too-long event; the 64th byte is lost, and accumulation restarts with the bytes after it |
| Framer.DataRunDiscards | examples/04_UART_Comm/stm32-pio-uartcommesp32/STM32F030_UART/src/main.c:72-79 | a run of data bytes of any length gives one too-long event per 64 bytes, and only the last `length mod 64` bytes remain accumulated |
| Framer.BlankLineIsSilent | examples/04_UART_Comm/stm32-pio-uartcommesp32/STM32F030_UART/src/main.c:54-56 | a terminator on an empty line, including the LF after a CR under either convention, reports nothing, because a line is only delivered when `messageIndex > 0` |
| TxQueue.Enqueue | examples/04_UART_Comm/stm32-pio-uartcommesp32/STM32F030_UART/src/main.c:128-137 | the ring gains the longest prefix of the string that fits and nothing else; unsent bytes are never overwritten |
| TxQueue.Transmit | examples/04_UART_Comm/stm32-pio-uartcommesp32/STM32F030_UART/src/main.c:127-142 | the queue gains the prefix that fits and is busy afterwards; an idle queue starts sending the byte at `tail`, and a busy one starts nothing |
| TxQueue.Complete | examples/04_UART_Comm/stm32-pio-uartcommesp32/STM32F030_UART/src/main.c:114-124 | `tail` advances mod 256; the queue stays busy and sends the new `tail` byte exactly when bytes remain, and goes idle otherwise |
| TxQueue.TransmitKeepsInv | examples/04_UART_Comm/stm32-pio-uartcommesp32/STM32F030_UART/src/main.c:127-142 | a non-empty transmit keeps the queue invariant: busy exactly when the ring is non-empty, the in-flight byte at `tail`, and the bytes accepted being those on the wire followed by those still queued |
| TxQueue.CompleteKeepsInv | examples/04_UART_Comm/stm32-pio-uartcommesp32/STM32F030_UART/src/main.c:114-124 | a transmit completion keeps that invariant |
| TxQueue.EmptyTransmitWhileIdle | examples/04_UART_Comm/stm32-pio-uartcommesp32/STM32F030_UART/src/main.c:138-141 | an empty string sent while idle raises the busy flag with nothing queued, which breaks the invariant; the next completion moves `tail` past `head`, so the ring reads as holding 255 bytes |
| TxQueue.CompletionsDrain | examples/04_UART_Comm/stm32-pio-uartcommesp32/STM32F030_UART/src/main.c:114-124 | each completion sends one queued byte; the queue stays busy until the last one and then goes idle, with every accepted byte on the wire |
| TxQueue.IdleSendDelivers | examples/04_UART_Comm/stm32-pio-uartcommesp32/STM32F030_UART/src/main.c:127-142 | a short string sent on an idle queue goes out completely, in order, after exactly its length in completions |
| TxQueue.SendAllFits | examples/04_UART_Comm/stm32-pio-uartcommesp32/STM32F030_UART/src/main.c:127-137 | messages that fit together are queued whole, one after another |
| TxQueue.WireIsPrefixOfQueued | examples/04_UART_Comm/stm32-pio-uartcommesp32/STM32F030_UART/src/main.c:114-141 | the bytes sent so far are always a prefix of the bytes accepted |
| EchoFirmware.Init | examples/04_UART_Comm/stm32-pio-uartcommesp32/STM32F030_UART/src/main.c:33-41 | after start-up the receive ring and line are empty, the LED is low as `MX_GPIO_Init` leaves it, both timestamps are 0, and `STM32 Ready` is queued with its first byte in flight |
| EchoFirmware.Replies | examples/04_UART_Comm/stm32-pio-uartcommesp32/STM32F030_UART/src/main.c:59-66 | every line ends with `Echo Sent`, and exactly a `Heartbeat` line gets `Heartbeat\r\n` before it |
| EchoFirmware.SendResponses | examples/04_UART_Comm/stm32-pio-uartcommesp32/STM32F030_UART/src/main.c:54-79 | for each framer event the transmit calls are made in the source's order: none, the too-long error, heartbeat then echo, or echo alone |
| EchoFirmware.ConsumeIsFrameThenSend | examples/04_UART_Comm/stm32-pio-uartcommesp32/STM32F030_UART/src/main.c:45-81 | handling bytes one by one equals framing them all and then sending each event's replies in order |
| EchoFirmware.Drain | examples/04_UART_Comm/stm32-pio-uartcommesp32/STM32F030_UART/src/main.c:45-81 | the drain empties the receive ring without moving `rxHead`, leaves the partial line that framing the unread bytes gives, and sends every event's replies in order; the LED and both timestamps are untouched; the invariant is kept |
| EchoFirmware.HandleByte | examples/04_UART_Comm/stm32-pio-uartcommesp32/STM32F030_UART/src/main.c:49-80 | the loop body for one byte frames it and sends its replies |
| EchoFirmware.DrainLoop | examples/04_UART_Comm/stm32-pio-uartcommesp32/STM32F030_UART/src/main.c:45-81 | the drain loop ends with the ring empty, and has framed every unread byte in FIFO order and sent the replies; the LED and both timestamps are untouched |
| EchoFirmware.TimerCheck | examples/04_UART_Comm/stm32-pio-uartcommesp32/STM32F030_UART/src/main.c:84-95 | a status line is sent and `lastSend` reset exactly when strictly more than 3000 ms have passed on the wrapping clock; the LED toggles and `lastToggle` resets exactly when strictly more than 500 ms have passed |
| EchoFirmware.StatusNotAtPeriod | examples/04_UART_Comm/stm32-pio-uartcommesp32/STM32F030_UART/src/main.c:85 | exactly 3000 ms after the last status, nothing is sent, even across the clock wrap |
| EchoFirmware.StatusAfterPeriod | examples/04_UART_Comm/stm32-pio-uartcommesp32/STM32F030_UART/src/main.c:85-87 | at 3001 ms a status line is sent |
| EchoFirmware.Step | examples/04_UART_Comm/stm32-pio-uartcommesp32/STM32F030_UART/src/main.c:43-124 | each event runs its handler: a received byte joins the ring unless it is full and leaves the line, queue, LED and timestamps unchanged; a transmit completion advances the queue when a byte is in flight, leaving every other field unchanged, and changes nothing when idle; a poll drains; a tick runs both timer checks; the invariant is kept |
| EchoFirmware.AlwaysConsistent | examples/04_UART_Comm/stm32-pio-uartcommesp32/STM32F030_UART/src/main.c:27-124 | from reset, after any trace of events, the line index is at most 63, both receive indices are below 128, and the transmitter is busy exactly when its ring is non-empty; the bytes sent are a prefix of those accepted |
| EchoFirmware.RxBurst | examples/04_UART_Comm/stm32-pio-uartcommesp32/STM32F030_UART/src/main.c:100-112 | a run of receive interrupts is the checked burst into the receive ring |
| EchoFirmware.LineScenario | examples/04_UART_Comm/stm32-pio-uartcommesp32/STM32F030_UART/src/main.c:45-81 | a line received with CRLF and then drained queues exactly its replies and leaves both buffers empty |
| EchoFirmware.HeartbeatLineScenario | examples/04_UART_Comm/stm32-pio-uartcommesp32/STM32F030_UART/src/main.c:59-66 | the ESP32's `Heartbeat\r\n` is answered with `Heartbeat\r\n` followed by `Echo Sent\r\n` |
| CommandFirmware.Parse | examples/04_UART_Comm/stm32-pio-uartringbuffer/src/main.c:133-160 | a recognised command's text is exactly its keyword |
| CommandFirmware.ParseKeyword | examples/04_UART_Comm/stm32-pio-uartringbuffer/src/main.c:135-155 | each keyword is recognised as its own command |
| CommandFirmware.ParseUnknown | examples/04_UART_Comm/stm32-pio-uartringbuffer/src/main.c:157-160 | a line is unknown exactly when it equals none of the five keywords |
| CommandFirmware.KeywordsDistinct | examples/04_UART_Comm/stm32-pio-uartringbuffer/src/main.c:135-153 | no two commands share a keyword, so the order of the `strcmp` chain does not matter |
| CommandFirmware.Reply | examples/04_UART_Comm/stm32-pio-uartringbuffer/src/main.c:137-159 | every reply is a line ended by CRLF; which text goes with which command is definitional, the `print` argument of each branch |
| CommandFirmware.RepliesIdentifyCommand | examples/04_UART_Comm/stm32-pio-uartringbuffer/src/main.c:137-159 | different commands print different replies |
| CommandFirmware.ProcessCommand | examples/04_UART_Comm/stm32-pio-uartringbuffer/src/main.c:133-161 | the reply is the one for the command the C string parses to; `led on` sets the LED, `led off` resets it, and every other line leaves it as it was |
| CommandFirmware.DispatchOne | examples/04_UART_Comm/stm32-pio-uartringbuffer/src/main.c:79-97 | a delivered line is processed as a command, and an overlong one prints the reset notice and leaves the LED alone |
| CommandFirmware.OneReplyPerLine | examples/04_UART_Comm/stm32-pio-uartringbuffer/src/main.c:133-161 | each processed line prints exactly one reply from the table |
| CommandFirmware.Init | examples/04_UART_Comm/stm32-pio-uartringbuffer/src/main.c:59-62 | after start-up the ring is empty, the LED is low and the two banner lines have been printed |
| CommandFirmware.ConsumeIsFrameThenRespond | examples/04_UART_Comm/stm32-pio-uartringbuffer/src/main.c:67-99 | handling bytes one by one equals framing them all under the CR-or-LF convention and then answering each event in order |
| CommandFirmware.Drain | examples/04_UART_Comm/stm32-pio-uartringbuffer/src/main.c:67-99 | the drain empties the ring; it leaves the partial line and LED that framing and dispatching the unread bytes give, and prints their replies |
| CommandFirmware.HandleByte | examples/04_UART_Comm/stm32-pio-uartringbuffer/src/main.c:74-98 | the loop body for one byte frames it and answers the event it completes |
| CommandFirmware.DrainLoop | examples/04_UART_Comm/stm32-pio-uartringbuffer/src/main.c:67-99 | the drain loop itself, with the same result as `Drain` |
| CommandFirmware.Step | examples/04_UART_Comm/stm32-pio-uartringbuffer/src/main.c:64-124 | a received byte is appended unless the ring held 127 bytes, in which case the ring reads as empty, and line, LED and output are untouched; a poll drains; the invariant is kept |
| CommandFirmware.RxBurst | examples/04_UART_Comm/stm32-pio-uartringbuffer/src/main.c:111-124 | a run of receive interrupts is the unchecked burst into the ring |
| CommandFirmware.ReceiveThenDrain | examples/04_UART_Comm/stm32-pio-uartringbuffer/src/main.c:67-124 | fewer than 128 bytes received into an empty ring are all drained, in order |
| CommandFirmware.OverrunLosesEverything | examples/04_UART_Comm/stm32-pio-uartringbuffer/src/main.c:116-119 | 128 bytes arriving before a drain make the ring read as empty, and the drain then processes none of them |
| CommandFirmware.LedOnScenario | examples/04_UART_Comm/stm32-pio-uartringbuffer/src/main.c:139-143 | receiving `led on\r\n` and draining turns the LED on and prints exactly `LED ON\r\n` |
| Esp32Bridge.Setup | examples/04_UART_Comm/stm32-pio-uartcommesp32/ESP32C3_UART/src/main.cpp:12-16 | `setup` prints the start banner and sends nothing to the STM32 |
| Esp32Bridge.Report | examples/04_UART_Comm/stm32-pio-uartcommesp32/ESP32C3_UART/src/main.cpp:32-42 | every report ends with CRLF, as `println` ends its output |
| Esp32Bridge.Read | examples/04_UART_Comm/stm32-pio-uartcommesp32/ESP32C3_UART/src/main.cpp:20-46 | reading keeps the line buffer partial and never touches the link or `lastSend` |
| Esp32Bridge.ReadIsFrameThenReport | examples/04_UART_Comm/stm32-pio-uartcommesp32/ESP32C3_UART/src/main.cpp:20-46 | the read loop equals framing the available bytes under the LF convention and reporting each event in order, leaving the link alone |
| Esp32Bridge.HandleByte | examples/04_UART_Comm/stm32-pio-uartcommesp32/ESP32C3_UART/src/main.cpp:21-45 | the loop body for one byte frames it and reports the event it completes |
| Esp32Bridge.ReadLoop | examples/04_UART_Comm/stm32-pio-uartcommesp32/ESP32C3_UART/src/main.cpp:20-46 | the read loop leaves the framed partial line and reports every event, and it never touches the link or `lastSend` |
| Esp32Bridge.HeartbeatCheck | examples/04_UART_Comm/stm32-pio-uartcommesp32/ESP32C3_UART/src/main.cpp:48-55 | a heartbeat is sent and shown, and `lastSend` reset, exactly when strictly more than 2000 ms have passed on the wrapping 32-bit clock |
| Esp32Bridge.Loop | examples/04_UART_Comm/stm32-pio-uartcommesp32/ESP32C3_UART/src/main.cpp:18-56 | a pass reports every line framed from the available bytes on the monitor, then sends one heartbeat, logging `Sent: Heartbeat`, exactly when more than 2000 ms have passed since the last one, and then restarts the interval at `now` |
| Esp32Bridge.LinkCarriesOnlyHeartbeats | examples/04_UART_Comm/stm32-pio-uartcommesp32/ESP32C3_UART/src/main.cpp:18-56 | whatever arrives and however the clock runs, the ESP32 writes only whole `Heartbeat\r\n` lines to the STM32 |
| Esp32Bridge.MonitorShowsLines | examples/04_UART_Comm/stm32-pio-uartcommesp32/ESP32C3_UART/src/main.cpp:28-35 | lines from the STM32 that arrive intact are each shown once, in order, after `Received: `, and leave the buffer empty |
| DmaEcho.Init | examples/04_UART_Comm/stm32-pio-uartdma/src/main.c:52-64 | the busy flag is raised before the greeting transfer, the 55-byte greeting is the first transfer, and four bytes are armed |
| DmaEcho.OnRxComplete | examples/04_UART_Comm/stm32-pio-uartdma/src/main.c:243-271 | a block toggles the LED and is copied with CRLF into the six-byte echo buffer; that is echoed only when no transfer is in flight, the flag is raised either way, and reception is re-armed for four bytes |
| DmaEcho.OnTxComplete | examples/04_UART_Comm/stm32-pio-uartdma/src/main.c:229-241 | a completed transfer clears the busy flag and changes nothing else |
| DmaEcho.Step | examples/04_UART_Comm/stm32-pio-uartdma/src/main.c:229-271 | a completed block toggles the LED, fills the echo buffer with the block and CRLF, raises the busy flag and re-arms four bytes, and starts an echo of exactly those six bytes only when no transfer was in flight; a completed transfer clears the flag and changes nothing else: no transfer starts, and the LED, echo buffer and armed receptions are kept |
| DmaEcho.LedTogglesPerBlock | examples/04_UART_Comm/stm32-pio-uartdma/src/main.c:249 | the LED level is flipped exactly once per block received |
| DmaEcho.RearmedPerBlock | examples/04_UART_Comm/stm32-pio-uartdma/src/main.c:269 | reception is re-armed for exactly four bytes once per block, and at no other time |
| DmaEcho.RunKeepsInv | examples/04_UART_Comm/stm32-pio-uartdma/src/main.c:243-271 | the greeting stays the first transfer, and every later one is six bytes ending in CRLF taken from the echo buffer |
| DmaEcho.OneTransferPerCompletion | examples/04_UART_Comm/stm32-pio-uartdma/src/main.c:262-266 | no transfer starts while one is in flight: transfers started never exceed one more than the completions seen |
| DmaEcho.FromReset | examples/04_UART_Comm/stm32-pio-uartdma/src/main.c:52-271 | from reset every trace keeps the invariant, bounds the transfers by the completions, and toggles and re-arms once per block |
| DmaEcho.SecondEchoDropped | examples/04_UART_Comm/stm32-pio-uartdma/src/main.c:262 | a second block before the first echo completes is not echoed or retried, yet it toggles and re-arms |
| DmaEcho.EchoBufferRewrittenInFlight | examples/04_UART_Comm/stm32-pio-uartdma/src/main.c:257-262 | the copy precedes the busy check, so a block arriving during an echo overwrites the buffer that transfer reads |
| PwmDimming.Init | examples/03_PWM_Signal/stm32-pio-pwmleddimming/src/main.c:58-59 | the duty starts at 0 and rising |
| PwmDimming.Step | examples/03_PWM_Signal/stm32-pio-pwmleddimming/src/main.c:66-73 | within the invariant the update never wraps: it adds or subtracts exactly 10; it turns down exactly when the duty reaches 1000 and up exactly when a decrement reaches 0 |
| PwmDimming.Phase | examples/03_PWM_Signal/stm32-pio-pwmleddimming/src/main.c:58-73 | every point of the cycle is a multiple of 10 in [0, 1000], with room to move in its direction |
| PwmDimming.Periodic | examples/03_PWM_Signal/stm32-pio-pwmleddimming/src/main.c:58-73 | the state after n iterations is point n mod 200 of the cycle 0, 10, ..., 1000, 990, ..., 10 |
| PwmDimming.AlwaysInv | examples/03_PWM_Signal/stm32-pio-pwmleddimming/src/main.c:58-73 | from reset the duty is always a multiple of 10 in [0, 1000] |
| PwmDimming.MainLoop | examples/03_PWM_Signal/stm32-pio-pwmleddimming/src/main.c:62-76 | each compare value written is the duty before the update, follows the periodic fade, and is at most `Period + 1` = 1000 |

## Left out

- Clock, GPIO, UART, DMA and timer initialisation, the IRQ handlers and `SysTick_Handler`: these are register configuration through vendor HAL calls whose code is not part of this model.
- HAL and Arduino I/O primitives: `HAL_UART_Transmit*`, `HAL_UART_Receive*`, `Serial.print*`, `SerialSTM32.read` and `HAL_GPIO_*` appear only as appends to output logs, as input sequences, or as state fields.
- Interrupt preemption and `volatile` semantics: each callback and each main-loop phase is one atomic event. In particular, a receive interrupt never lands in the middle of a drain.
- `HAL_Delay`: the 200 ms start-up blink of the STM32F030 firmware and the 10 ms delay of the PWM loop are timing only. The start-up blink toggles the LED twice, so the LED level is back where it started.
- The clock reads: `HAL_GetTick()` and `millis()` are each read twice per timer check in the source, once for the test and once for the new timestamp, so the STM32F030 main loop reads the clock up to four times per pass. A `Tick` event carries one reading, `now`, which both the status check and the LED check use, for the test and the new timestamp alike.
- Esp32Bridge.Loop: one pass reads exactly the bytes given as available. How `SerialSTM32.available()` grows while the loop runs is not modelled.
- The DMA engine: a transfer is recorded with the bytes its buffer held when it started. The DMA actually reads the buffer while it runs, so the rewrite shown by `DmaEcho.EchoBufferRewrittenInFlight` could change bytes still to be sent. The model only shows that the buffer differs from what the transfer started with.
- The delivery of `HAL_UART_TxCpltCallback` in the DMA example: the firmware enables and handles only the DMA channel interrupt and never the USART interrupt, through which the HAL may finish a DMA transmit. The model takes transmit completions as events that may arrive, and none of its lemmas depends on one arriving.
- The `while (1);` traps after a failed DMA start in the DMA example: the HAL's return codes are not modelled, and every start is taken to succeed.
- The PWM timer hardware: the model records the compare value written each iteration, not the PWM waveform.
- The PWM breathing, push-button, polled echo and external-interrupt examples: they hold no logic beyond HAL calls, or they rely on floating point (`sinf`).
- TxQueue.TransmitKeepsInv: requires a non-empty string, because an empty one sent while idle breaks the queue invariant (see `TxQueue.EmptyTransmitWhileIdle`). Every call site in the firmware passes a non-empty literal.
