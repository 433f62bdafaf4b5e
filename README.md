# Diagnostic terminal transport, modelled in Dafny

This project models the diagnostic terminal of the firmware (`src/terminal.rs`).
The terminal drains the defmt log queue over a USB CDC-ACM channel. Each
message goes out as a frame of three parts:

- a 16-byte header packet: the kind tag (`'D'` for a log record, `'S'` for a
  string), the payload length in decimal digits from byte 1 on, zeros up to
  byte 14 and `':'` at byte 15;
- the payload, cut into packets of at most the endpoint's maximum packet size;
- a final `"\n"` packet.

A cycle (`process`) sends the oldest pending record and releases it only when
the whole frame got through. When nothing is pending, it sends a heartbeat
instead. The task connects once, then loops: it sleeps 10 ms after a cycle that found
a record pending, whether or not its frame got through, and 1000 ms after a
heartbeat.

Files:

- `wire.dfy` (module `Wire`): the header encoding and its decoder, decimal
  digits, and cutting a payload into chunks. These are pure functions, with
  the round-trip and size lemmas.
- `transport.dfy` (module `Transport`): the two collaborators the terminal
  drives.
  - `CdcChannel` is a class recording written packets and attempts. A
    failure oracle decides which write attempts fail.
  - `LogSource` is a class holding the log queue as a sequence of records.
- `terminal.dfy` (module `Terminal`): the `Terminal` class with `Init`,
  `Connect`, `Send`, `Process`, one cycle of the task and the task loop run
  for a given number of cycles. Each method is specified against the frame
  function `Frame` and the predicates `WroteUntilRefused` and `Processed`.
- `scenarios.dfy` (module `Scenarios`): concrete frames and a retry after a
  link error.

The heartbeat literal `b"heartbeat message <3"` is 20 bytes, so its header
reads `S20`.

## Model

| member | source | states |
|---|---|---|
| Wire.DecimalDigits | src/terminal.rs:88-89 | the rendering of a length is canonical decimal: only digits, no leading zero except for 0 itself, and it starts with '0' exactly when the length is 0 |
| Wire.ParseDecimalDigits | src/terminal.rs:88-89 | reading the digits of a length back as a decimal number gives that length |
| Wire.DecimalDigitsParse | src/terminal.rs:88-89 | every canonical digit string is the rendering of the number it reads as, so rendering is onto canonical strings |
| Wire.DecimalDigitsLength | src/terminal.rs:88-90 | a number renders in at most k digits exactly when it is below 10^k |
| Wire.UsizeDigits | src/terminal.rs:16-19 | every 32-bit `usize` length renders in at most 10 digits, so the digit copy always fits the header with ':' intact |
| Wire.HeaderBytes | src/terminal.rs:83-90 | the header exists exactly when the length has at most 15 digits (otherwise the slice copy panics); it is 16 bytes with the kind tag at 0 and the digits at 1..1+k; with at most 14 digits it has ':' at 15 and zeros between the digits and the ':' |
| Wire.ColonOverwritten | src/terminal.rs:85-90 | with exactly 15 digits the copy succeeds but the last digit replaces the ':' at byte 15 |
| Wire.HeaderRoundTrip | src/terminal.rs:83-90 | decoding the header of a kind with a one-byte tag and a length of at most 14 digits gives back that kind and length |
| Wire.HeaderDecodeExact | src/terminal.rs:83-90 | a packet that decodes as a header is byte for byte the header built from what it decodes to |
| Wire.ChunksFlatten | src/terminal.rs:99-101 | `Chunks`, the model of `data.chunks(max)`: concatenating the chunks of a payload gives back the payload |
| Wire.ChunksSizes | src/terminal.rs:99-101 | of `Chunks`: every chunk is non-empty and at most the maximum packet size; all but the last are exactly that size |
| Wire.ChunksCount | src/terminal.rs:99-101 | of `Chunks`: there are ceil(len/max) chunks, none for an empty payload |
| Transport.FirstRejected | src/terminal.rs:93-113 | the index of the first refused packet of a frame: all packets before it are accepted and the packet at it, if any, is refused |
| Transport.CdcChannel.WritePacket | src/terminal.rs:93-113 | a write counts as one attempt; it succeeds unless the link fails that attempt or the packet exceeds the maximum packet size, and only a successful write puts the packet on the wire |
| Transport.LogSource.Read | src/terminal.rs:54 | the grant is the oldest pending record, and there is none exactly when the queue is empty |
| Transport.LogSource.Release | src/terminal.rs:62-64 | releasing the whole record removes it from the queue; releasing less drops that many bytes from its front |
| Terminal.Frame | src/terminal.rs:83-113 | the packets `send` writes when nothing is refused: at least two, the first being the 16-byte header with the tag at 0 and ':' at 15 and the last being "\n" (the packets between are stated by FrameRoundTrip) |
| Terminal.FrameRoundTrip | src/terminal.rs:80-116 | the frame has 2 + ceil(len/max) packets: the first decodes to the header, the last is "\n", and the ones between are bounded by the packet size and concatenate to the payload |
| Terminal.SendOutcome | src/terminal.rs:93-115 | after a send, the wire holds the whole frame when it was delivered, and otherwise a strict prefix of it followed by no further attempt after the refused packet |
| Terminal.NextDelayMs | src/terminal.rs:128-131 | the delay is 10 ms exactly after Op and 1000 ms exactly after NoOp |
| Terminal.Terminal.constructor | src/terminal.rs:21-31 | the terminal owns the log consumer and the channel and starts with the given connection flag |
| Terminal.Terminal.Init | src/terminal.rs:39-41 | the terminal is disconnected |
| Terminal.Terminal.Connect | src/terminal.rs:43-47 | the terminal is connected |
| Terminal.Terminal.FillHeader | src/terminal.rs:83-90 | filling the zeroed 16-byte buffer with the tag, the ':' and the copied digits yields exactly the header encoding |
| Terminal.Terminal.Send | src/terminal.rs:80-116 | writes the frame's packets in order and stops at the first refused write; it succeeds exactly when the whole frame was delivered |
| Terminal.Terminal.WriteChunks | src/terminal.rs:99-106 | the payload loop writes the chunks in order and stops at the first refused one: the chunks that got through are on the wire, the rest starts with the refused chunk, and it succeeds exactly when nothing is left |
| Terminal.Terminal.Process | src/terminal.rs:49-78 | with a record pending: a 'D' frame of that record, the record released exactly when the frame was delivered and kept otherwise, and Op; with none pending: an 'S' frame of the 20-byte heartbeat, the queue untouched, and NoOp |
| Terminal.Terminal.Cycle | src/terminal.rs:123-132 | connects exactly when not connected and leaves the terminal connected; takes one `process` step with the effect stated for Process (the frame written, the record released exactly on delivery) and sleeps the delay chosen by its result: 10 ms exactly when a record was pending and 1000 ms exactly when none was |
| Terminal.Terminal.ProcessedQueue | src/terminal.rs:49-78 | a step returns Op exactly when a record was pending, and afterwards the queue is either unchanged or has lost its head |
| Terminal.Terminal.Task | src/terminal.rs:120-134 | after `init` and n cycles the terminal has connected exactly once (if n > 0) and stays connected; the queues before each cycle form a chain from the initial to the final queue, each step keeping the queue or dropping its head, and cycle i sleeps 10 ms exactly when a record was pending before it and 1000 ms exactly when none was |
| Scenarios.HeartbeatFrame | src/terminal.rs:67-74 | the heartbeat frame over 64-byte packets is `S20` with zeros and ':', the 20-byte message in one packet, then "\n" |
| Scenarios.LogFrame130 | src/terminal.rs:54-62 | a 130-byte record over 64-byte packets goes out as `D130` with zeros and ':', then packets of 64, 64 and 2 bytes, then "\n" |
| Scenarios.RetryAfterLinkError | src/terminal.rs:62-66 | when the link fails the second payload packet, the header and first chunk stay on the wire and the record stays queued; the next cycle sends the whole frame and releases the record |

## Left out

- Async suspension, `wait_connection`, `embassy_time::Timer` and the executor are not modelled. Connecting is only the change of the flag, and the delay is a returned value.
- The `info!` and `error!` logging side effects are not modelled.
- Terminal.Terminal.Process: the producer side of the log queue is absent. On the target, defmt's global logger writes into the same bbqueue that `process` drains, including the `error!` frames `send` logs when a write fails and the `info!` frame of `connect`. So on the target a failed heartbeat leaves a record pending and the next cycle is Op, and a failed 'D' send queues an error frame behind the unreleased bytes. A bbqueue read grant is the whole contiguous run of committed bytes, not one record, so the retried frame can carry more bytes than the refused one. The model's "queue untouched" after a heartbeat, "record kept" after a refused frame, and Scenarios.RetryAfterLinkError's resend of the same record hold only without a producer.
- The bbqueue ring buffer inside `DefmtConsumer` is not modelled. The consumer is a queue of non-empty records, and a release clamps `used` to the grant length as bbqueue does.
- `itoa` is not modelled. It is replaced by the pure `DecimalDigits` function.
- `usize` is taken as 32 bits, the width on the RP2040 target. The channel's maximum packet size must be positive, because `chunks(0)` panics.
- CdcChannel.WritePacket: the link's failures are an oracle (a fixed set of failing attempt numbers). A packet above the maximum packet size is refused, as the endpoint reports a buffer overflow; this comes from embassy-usb, which is not part of this model.
- Terminal.Terminal.Task: the endless loop is run for a given number of cycles. Its contract follows the queue and the delays across cycles; the packets each cycle puts on the wire are stated per step by Terminal.Terminal.Process, not accumulated over the run.
- Terminal.Terminal.Cycle: whether the cycle connected is reported as a ghost result.
- `src/usb.rs` (USB descriptors, buffers, `usb_task`, the logger task) is not part of this model.
- `src/platform.rs`, `src/blinky.rs` and `src/main.rs` are not part of this model. They hold peripheral set-up and LED loops, with no logic of the terminal.
