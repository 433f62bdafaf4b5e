/** Concrete runs of the terminal: the heartbeat frame, the frame of a
    130-byte record over 64-byte packets, and a record whose frame is cut
    off by a link error and is sent again on the next cycle. */
module Scenarios {
  import opened Wire
  import opened Transport
  import opened Terminal

  /** With nothing logged the terminal sends `S20` then zeros and ':', the
      20-byte heartbeat in one packet, then "\n". */
  lemma HeartbeatFrame()
    ensures Frame(MessageHeader(STRING_COMM, |HEARTBEAT|), HEARTBEAT, 64) ==
      [[0x53, 0x32, 0x30, 0, 0, 0, 0, 0, 0, 0, 0, 0, 0, 0, 0, 0x3A], HEARTBEAT, [NEWLINE]]
  {
    var digits := DecimalDigits(20);
    assert digits == [0x32, 0x30] by {
      assert DecimalDigits(2) == [0x32];
    }
    var h := HeaderBytes(STRING_COMM, 20).value;
    var expected: seq<byte> := [0x53, 0x32, 0x30, 0, 0, 0, 0, 0, 0, 0, 0, 0, 0, 0, 0, 0x3A];
    forall i | 0 <= i < HEADER_LEN ensures h[i] == expected[i] {
      if 1 <= i < 3 {
        assert h[i] == h[1..3][i - 1] == digits[i - 1];
      }
    }
    assert h == expected;
    assert Chunks(HEARTBEAT, 64) == [HEARTBEAT];
  }

  /** A 130-byte record over 64-byte packets: header `D130` then zeros and ':',
      payload packets of 64, 64 and 2 bytes, then "\n". */
  lemma LogFrame130(record: seq<byte>)
    requires |record| == 130
    ensures var f := Frame(MessageHeader(DEFMT_COMM, 130), record, 64);
      |f| == 5 &&
      f[0] == [0x44, 0x31, 0x33, 0x30, 0, 0, 0, 0, 0, 0, 0, 0, 0, 0, 0, 0x3A] &&
      f[1] == record[..64] && f[2] == record[64..128] && f[3] == record[128..] &&
      f[4] == [NEWLINE]
  {
    assert DecimalDigits(130) == [0x31, 0x33, 0x30] by {
      assert DecimalDigits(13) == [0x31, 0x33] by {
        assert DecimalDigits(1) == [0x31];
      }
    }
    var rest := record[64..];
    assert rest[..64] == record[64..128] && rest[64..] == record[128..];
    assert Chunks(rest[64..], 64) == [record[128..]];
    assert Chunks(rest, 64) == [record[64..128], record[128..]];
    assert Chunks(record, 64) == [record[..64], record[64..128], record[128..]];
    var d := DecimalDigits(130);
    var h := HeaderBytes(DEFMT_COMM, 130).value;
    var expected: seq<byte> := [0x44, 0x31, 0x33, 0x30, 0, 0, 0, 0, 0, 0, 0, 0, 0, 0, 0, 0x3A];
    forall i | 0 <= i < HEADER_LEN ensures h[i] == expected[i] {
      if 1 <= i < 4 {
        assert h[i] == h[1..4][i - 1] == d[i - 1];
      }
    }
    assert h == expected;
  }

  /** The link refuses the second payload packet of a 130-byte record's frame:
      the first cycle leaves the header and one chunk on the wire and keeps the
      record; the second cycle sends the same record whole and releases it. */
  method RetryAfterLinkError(record: seq<byte>)
      returns (afterFirst: seq<seq<byte>>, pendingAfterFirst: seq<seq<byte>>,
               afterSecond: seq<seq<byte>>, pendingAfterSecond: seq<seq<byte>>)
    requires |record| == 130
    ensures afterFirst == Frame(MessageHeader(DEFMT_COMM, 130), record, 64)[..2]
    ensures pendingAfterFirst == [record]
    ensures afterSecond == afterFirst + Frame(MessageHeader(DEFMT_COMM, 130), record, 64)
    ensures pendingAfterSecond == []
  {
    var log := new LogSource([record]);
    var link := new CdcChannel(64, {2});
    var term := new Terminal(log, link, false);
    ghost var frame := Frame(MessageHeader(DEFMT_COMM, 130), record, 64);
    LogFrame130(record);
    FirstRejectedAt(64, {2}, 0, frame, 2);
    FirstRejectedAt(64, {2}, 3, frame, 5);

    var r1 := term.Process();
    afterFirst, pendingAfterFirst := link.written, log.records;
    assert frame[..2] == [frame[0], frame[1]];
    var r2 := term.Process();
    afterSecond, pendingAfterSecond := link.written, log.records;
    assert frame[..5] == frame;
  }
}
