/** The diagnostic terminal: sends frames over the CDC-ACM channel, draining
    the defmt log queue and sending a heartbeat when the queue is empty, and
    the task that drives it and picks the polling delay. */
module Terminal {
  import opened Wire
  import opened Transport

  datatype ProcessResult = Op | NoOp

  /** `b"heartbeat message <3"` */
  const HEARTBEAT: seq<byte> :=
    [0x68, 0x65, 0x61, 0x72, 0x74, 0x62, 0x65, 0x61, 0x74, 0x20,
     0x6D, 0x65, 0x73, 0x73, 0x61, 0x67, 0x65, 0x20, 0x3C, 0x33]

  const OP_DELAY_MS: nat := 10
  const NOOP_DELAY_MS: nat := 1000

  /** The packets of the frame that `send` writes for `header` and `data`. */
  function Frame(header: MessageHeader, data: seq<byte>, max: nat): (f: seq<seq<byte>>)
    requires max > 0 && header.length <= USIZE_MAX
    ensures |f| >= 2
    ensures |f[0]| == HEADER_LEN && f[0][0] == TagByte(header.kind) && f[0][HEADER_LEN - 1] == COLON
    ensures f[|f| - 1] == [NEWLINE]
  {
    UsizeDigits(header.length);
    [HeaderBytes(header.kind, header.length).value] + Chunks(data, max) + [[NEWLINE]]
  }

  /** What a receiver gets from a frame: the first packet decodes to the
      header, the last is "\n", and the ceil(|data| / max) packets between are
      non-empty, at most `max` bytes, and concatenate to the payload. */
  lemma FrameRoundTrip(header: MessageHeader, data: seq<byte>, max: nat)
    requires max > 0 && header.length <= USIZE_MAX && header.kind.tag as int < 0x100
    ensures var f := Frame(header, data, max);
      |f| == 2 + (|data| + max - 1) / max &&
      DecodeHeader(f[0]) == Some(header) &&
      f[|f| - 1] == [NEWLINE] &&
      Flatten(f[1..|f| - 1]) == data &&
      forall i :: 1 <= i < |f| - 1 ==> 0 < |f[i]| <= max
  {
    var f := Frame(header, data, max);
    var chunks := Chunks(data, max);
    UsizeDigits(header.length);
    HeaderRoundTrip(header.kind, header.length);
    ChunksCount(data, max);
    ChunksFlatten(data, max);
    ChunksSizes(data, max);
    assert f[1..|f| - 1] == chunks;
    forall i | 1 <= i < |f| - 1 ensures 0 < |f[i]| <= max {
      assert f[i] == chunks[i - 1];
    }
  }

  /** Whether every packet of `frame`, written from attempt `start` on, gets through. */
  ghost predicate Delivered(ch: CdcChannel, start: nat, frame: seq<seq<byte>>) {
    FirstRejected(ch.maxPacketSize, ch.failing, start, frame) == |frame|
  }

  /** The channel's state after writing `frame` packet by packet from
      (`written0`, `attempts0`) and stopping at the first refused write: the
      packets before it are on the wire and no later write is attempted. */
  ghost predicate WroteUntilRefused(ch: CdcChannel, written0: seq<seq<byte>>, attempts0: nat, frame: seq<seq<byte>>)
    reads ch
  {
    var k := FirstRejected(ch.maxPacketSize, ch.failing, attempts0, frame);
    ch.written == written0 + frame[..k] &&
    ch.attempts == attempts0 + (if k == |frame| then k else k + 1)
  }

  /** What a stopped write leaves on the wire: the whole frame when it was
      delivered; otherwise a strict prefix of it, whose next packet is the
      refused one. */
  lemma SendOutcome(ch: CdcChannel, written0: seq<seq<byte>>, attempts0: nat, frame: seq<seq<byte>>)
    requires WroteUntilRefused(ch, written0, attempts0, frame)
    ensures |ch.written| >= |written0| && ch.written[..|written0|] == written0
    ensures Delivered(ch, attempts0, frame) ==>
      ch.written == written0 + frame && ch.attempts == attempts0 + |frame|
    ensures !Delivered(ch, attempts0, frame) ==>
      var n := |ch.written| - |written0|;
      n < |frame| && ch.written[|written0|..] == frame[..n] &&
      Rejected(ch.maxPacketSize, ch.failing, attempts0 + n, frame[n]) &&
      ch.attempts == attempts0 + n + 1
  {
  }

  lemma FrameOf(header: MessageHeader, data: seq<byte>, max: nat, headerBytes: seq<byte>)
    requires max > 0 && header.length <= USIZE_MAX
    requires HeaderBytes(header.kind, header.length) == Some(headerBytes)
    ensures Frame(header, data, max) == [headerBytes] + Chunks(data, max) + [[NEWLINE]]
  {
  }

  /** The header packet was refused: nothing of the frame is on the wire. */
  lemma HeaderRefused(ch: CdcChannel, written0: seq<seq<byte>>, attempts0: nat, frame: seq<seq<byte>>)
    requires |frame| > 0 && Rejected(ch.maxPacketSize, ch.failing, attempts0, frame[0])
    requires ch.written == written0 && ch.attempts == attempts0 + 1
    ensures !Delivered(ch, attempts0, frame) && WroteUntilRefused(ch, written0, attempts0, frame)
  {
    assert frame[..0] == [];
  }

  /** The header and the chunks `done` got through and the packet after them
      was refused: those packets are on the wire and nothing after them. */
  lemma RefusedAfter(ch: CdcChannel, written0: seq<seq<byte>>, attempts0: nat, frame: seq<seq<byte>>,
                     headerBytes: seq<byte>, done: seq<seq<byte>>, tail: seq<seq<byte>>)
    requires frame == [headerBytes] + (done + tail) + [[NEWLINE]]
    requires !Rejected(ch.maxPacketSize, ch.failing, attempts0, headerBytes)
    requires forall j :: 0 <= j < |done| ==> !Rejected(ch.maxPacketSize, ch.failing, attempts0 + 1 + j, done[j])
    requires Rejected(ch.maxPacketSize, ch.failing, attempts0 + 1 + |done|, if tail == [] then [NEWLINE] else tail[0])
    requires ch.written == written0 + [headerBytes] + done && ch.attempts == attempts0 + 2 + |done|
    ensures !Delivered(ch, attempts0, frame) && WroteUntilRefused(ch, written0, attempts0, frame)
  {
    var max, failing := ch.maxPacketSize, ch.failing;
    forall j | 0 <= j < 1 + |done| ensures !Rejected(max, failing, attempts0 + j, frame[j]) {
      if j >= 1 {
        assert frame[j] == done[j - 1];
      }
    }
    assert frame[1 + |done|] == if tail == [] then [NEWLINE] else tail[0];
    FirstRejectedAt(max, failing, attempts0, frame, 1 + |done|);
    assert frame[..1 + |done|] == [headerBytes] + done;
  }

  /** Every packet of the frame got through: the whole frame is on the wire. */
  lemma AllAccepted(ch: CdcChannel, written0: seq<seq<byte>>, attempts0: nat, frame: seq<seq<byte>>,
                    headerBytes: seq<byte>, done: seq<seq<byte>>)
    requires frame == [headerBytes] + done + [[NEWLINE]]
    requires !Rejected(ch.maxPacketSize, ch.failing, attempts0, headerBytes)
    requires forall j :: 0 <= j < |done| ==> !Rejected(ch.maxPacketSize, ch.failing, attempts0 + 1 + j, done[j])
    requires !Rejected(ch.maxPacketSize, ch.failing, attempts0 + 1 + |done|, [NEWLINE])
    requires ch.written == written0 + [headerBytes] + done + [[NEWLINE]] && ch.attempts == attempts0 + |frame|
    ensures Delivered(ch, attempts0, frame) && WroteUntilRefused(ch, written0, attempts0, frame)
  {
    var max, failing := ch.maxPacketSize, ch.failing;
    forall j | 0 <= j < |frame| ensures !Rejected(max, failing, attempts0 + j, frame[j]) {
      if 1 <= j <= |done| {
        assert frame[j] == done[j - 1];
      }
    }
    FirstRejectedAt(max, failing, attempts0, frame, |frame|);
    assert frame[..|frame|] == frame;
  }

  /** The polling delay the task sleeps for after a cycle. */
  function NextDelayMs(r: ProcessResult): (ms: nat)
    ensures r.Op? <==> ms == OP_DELAY_MS
    ensures r.NoOp? <==> ms == NOOP_DELAY_MS
  {
    match r
    case Op => OP_DELAY_MS
    case NoOp => NOOP_DELAY_MS
  }

  /** One cycle of the task as seen from the queue: it sleeps 10 ms exactly
      when a record was pending and 1000 ms exactly when none was, and it
      either keeps the queue or drops its head. */
  ghost predicate QueueStep(q0: seq<seq<byte>>, q1: seq<seq<byte>>, delay: nat) {
    (delay == OP_DELAY_MS <==> q0 != []) &&
    (delay == NOOP_DELAY_MS <==> q0 == []) &&
    (q1 == q0 || (q0 != [] && q1 == q0[1..]))
  }

  class Terminal {
    const defmt: LogSource
    const channel: CdcChannel
    var isConnected: bool

    ghost predicate Valid()
      reads this, defmt
    {
      defmt.Valid() && channel.maxPacketSize > 0
    }

    constructor (defmt: LogSource, channel: CdcChannel, isConnected: bool)
      requires defmt.Valid() && channel.maxPacketSize > 0
      ensures Valid()
      ensures this.defmt == defmt && this.channel == channel && this.isConnected == isConnected
    {
      this.defmt := defmt;
      this.channel := channel;
      this.isConnected := isConnected;
    }

    method Init()
      modifies this
      ensures !isConnected
    {
      isConnected := false;
    }

    /** Waiting for the host to open the port is not modelled; afterwards the
        terminal counts as connected. */
    method Connect()
      modifies this
      ensures isConnected
    {
      isConnected := true;
    }

    /** The state of one `process` step: with a record pending, a 'D' frame
        carrying that record, the record released exactly when the whole frame
        got through, and `Op`; with none pending, an 'S' frame carrying the
        heartbeat, the queue untouched, and `NoOp`. */
    ghost predicate Processed(records0: seq<seq<byte>>, written0: seq<seq<byte>>, attempts0: nat, r: ProcessResult)
      requires channel.maxPacketSize > 0
      requires forall i :: 0 <= i < |records0| ==> |records0[i]| <= USIZE_MAX
      reads this, defmt, channel
    {
      if records0 != [] then
        var record := records0[0];
        var frame := Frame(MessageHeader(DEFMT_COMM, |record|), record, channel.maxPacketSize);
        r == Op &&
        WroteUntilRefused(channel, written0, attempts0, frame) &&
        defmt.records == if Delivered(channel, attempts0, frame) then records0[1..] else records0
      else
        var frame := Frame(MessageHeader(STRING_COMM, |HEARTBEAT|), HEARTBEAT, channel.maxPacketSize);
        r == NoOp &&
        WroteUntilRefused(channel, written0, attempts0, frame) &&
        defmt.records == records0
    }

    /** The header buffer of `send`: zeroed, tag at 0, ':' at 15, then the
        length's digits copied in from byte 1. */
    static method FillHeader(header: MessageHeader) returns (bytes: seq<byte>)
      requires header.length <= USIZE_MAX
      ensures HeaderBytes(header.kind, header.length) == Some(bytes)
    {
      var buf := new byte[HEADER_LEN](_ => 0);
      buf[0] := TagByte(header.kind);
      buf[HEADER_LEN - 1] := COLON;
      var digits := DecimalDigits(header.length);
      UsizeDigits(header.length);
      forall j | 0 <= j < |digits| {
        buf[1 + j] := digits[j];
      }
      bytes := buf[..];
      ghost var h := HeaderBytes(header.kind, header.length).value;
      forall i | 0 <= i < HEADER_LEN ensures bytes[i] == h[i] {
        if 1 <= i < 1 + |digits| {
          assert h[i] == h[1..1 + |digits|][i - 1];
        }
      }
      assert bytes == h;
    }

    /** `send`: the header packet, the payload in chunks of at most the
        channel's packet size, then "\n"; gives up at the first refused write.
        Succeeds exactly when the whole frame got through. */
    method Send(header: MessageHeader, data: seq<byte>) returns (ok: bool)
      requires channel.maxPacketSize > 0 && header.length <= USIZE_MAX
      modifies channel
      ensures ok == Delivered(channel, old(channel.attempts), Frame(header, data, channel.maxPacketSize))
      ensures WroteUntilRefused(channel, old(channel.written), old(channel.attempts), Frame(header, data, channel.maxPacketSize))
    {
      var max := channel.maxPacketSize;
      ghost var chunks := Chunks(data, max);
      ghost var written0, attempts0 := channel.written, channel.attempts;
      var headerBytes := FillHeader(header);
      ghost var frame := [headerBytes] + chunks + [[NEWLINE]];
      FrameOf(header, data, max, headerBytes);

      ok := channel.WritePacket(headerBytes);
      if !ok {
        HeaderRefused(channel, written0, attempts0, frame);
        return;
      }

      ghost var sent, unsent;
      ok, sent, unsent := WriteChunks(data);
      if !ok {
        RefusedAfter(channel, written0, attempts0, frame, headerBytes, sent, unsent);
        return;
      }

      ok := channel.WritePacket([NEWLINE]);
      if ok {
        AllAccepted(channel, written0, attempts0, frame, headerBytes, sent);
      } else {
        RefusedAfter(channel, written0, attempts0, frame, headerBytes, sent, []);
      }
    }

    /** The payload loop of `send`: the chunks of `data` in order, stopping at
        the first refused write. `sent` are the chunks that got through and
        `unsent` the rest, starting with the refused one. */
    method WriteChunks(data: seq<byte>) returns (ok: bool, ghost sent: seq<seq<byte>>, ghost unsent: seq<seq<byte>>)
      requires channel.maxPacketSize > 0
      modifies channel
      ensures Chunks(data, channel.maxPacketSize) == sent + unsent
      ensures channel.written == old(channel.written) + sent
      ensures forall j :: 0 <= j < |sent| ==>
        !Rejected(channel.maxPacketSize, channel.failing, old(channel.attempts) + j, sent[j])
      ensures ok <==> unsent == []
      ensures ok ==> channel.attempts == old(channel.attempts) + |sent|
      ensures !ok ==> channel.attempts == old(channel.attempts) + |sent| + 1
      ensures !ok ==> Rejected(channel.maxPacketSize, channel.failing, old(channel.attempts) + |sent|, unsent[0])
    {
      var max := channel.maxPacketSize;
      ghost var written0, attempts0 := channel.written, channel.attempts;
      // The remaining slice of the chunks iterator.
      var rest := data;
      ok, sent, unsent := true, [], [];
      while |rest| > 0
        invariant Chunks(data, max) == sent + Chunks(rest, max)
        invariant channel.written == written0 + sent
        invariant channel.attempts == attempts0 + |sent|
        invariant forall j :: 0 <= j < |sent| ==> !Rejected(max, channel.failing, attempts0 + j, sent[j])
        decreases |rest|
      {
        var n := if |rest| <= max then |rest| else max;
        var chunk := rest[..n];
        ChunksStep(rest, max, n);
        ok := channel.WritePacket(chunk);
        if !ok {
          unsent := Chunks(rest, max);
          return;
        }
        sent := sent + [chunk];
        rest := rest[n..];
      }
      assert sent + [] == sent;
    }

    /** `process`: one cycle of the terminal. */
    method Process() returns (r: ProcessResult)
      requires Valid()
      modifies defmt, channel
      ensures Valid()
      ensures Processed(old(defmt.records), old(channel.written), old(channel.attempts), r)
    {
      r := NoOp;
      var grant := defmt.Read();
      if grant.Some? {
        var record := grant.value;
        var len := |record|;
        var ok := Send(MessageHeader(DEFMT_COMM, len), record);
        if ok {
          defmt.Release(len);
        }
        r := Op;
      } else {
        var ok := Send(MessageHeader(STRING_COMM, |HEARTBEAT|), HEARTBEAT);
      }
    }

    /** One turn of the task's loop: connect if not yet connected, take one
        `process` step, then choose the delay from its result `r`.
        `connected` tells whether it connected. */
    method Cycle() returns (delay: nat, ghost connected: bool, ghost r: ProcessResult)
      requires Valid()
      modifies this, defmt, channel
      ensures Valid() && isConnected
      ensures connected == !old(isConnected)
      ensures Processed(old(defmt.records), old(channel.written), old(channel.attempts), r)
      ensures delay == NextDelayMs(r)
      ensures QueueStep(old(defmt.records), defmt.records, delay)
    {
      ghost var records0, written0, attempts0 := defmt.records, channel.written, channel.attempts;
      connected := !isConnected;
      if !isConnected {
        Connect();
      }
      var result := Process();
      r := result;
      delay := NextDelayMs(result);
      ProcessedQueue(records0, written0, attempts0, result);
    }

    /** The queue after a step: a step does work exactly when a record is
        pending, and it then either keeps the queue or drops its head. */
    lemma ProcessedQueue(records0: seq<seq<byte>>, written0: seq<seq<byte>>, attempts0: nat, r: ProcessResult)
      requires channel.maxPacketSize > 0
      requires forall i :: 0 <= i < |records0| ==> |records0[i]| <= USIZE_MAX
      requires Processed(records0, written0, attempts0, r)
      ensures r == Op <==> records0 != []
      ensures defmt.records == records0 || (records0 != [] && defmt.records == records0[1..])
    {
    }

    /** The task, run for `cycles` turns of its endless loop: `init`, then
        cycles that each connect only while disconnected. */
    method Task(cycles: nat) returns (delays: seq<nat>, ghost connects: nat, ghost queues: seq<seq<seq<byte>>>)
      requires Valid()
      modifies this, defmt, channel
      ensures Valid()
      ensures |delays| == cycles && |queues| == cycles + 1
      ensures queues[0] == old(defmt.records) && defmt.records == queues[cycles]
      ensures forall i {:trigger delays[i]} :: 0 <= i < cycles ==> QueueStep(queues[i], queues[i + 1], delays[i])
      ensures isConnected <==> cycles > 0
      ensures connects == if cycles == 0 then 0 else 1
    {
      Init();
      delays, connects, queues := [], 0, [defmt.records];
      while |delays| < cycles
        invariant Valid()
        invariant |delays| <= cycles && |queues| == |delays| + 1
        invariant queues[0] == old(defmt.records) && defmt.records == queues[|delays|]
        invariant forall i {:trigger delays[i]} :: 0 <= i < |delays| ==> QueueStep(queues[i], queues[i + 1], delays[i])
        invariant isConnected <==> |delays| > 0
        invariant connects == if |delays| == 0 then 0 else 1
        decreases cycles - |delays|
      {
        var delay, connected, r := Cycle();
        delays := delays + [delay];
        queues := queues + [defmt.records];
        if connected {
          connects := connects + 1;
        }
      }
    }
  }
}
