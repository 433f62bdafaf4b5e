/** The two collaborators the terminal drives: the CDC-ACM channel it writes
    packets to, and the defmt log queue it drains. Both are external to the
    terminal; they are modelled by the behaviour the terminal relies on. */
module Transport {
  import opened Wire

  /** A write of packet `p` as attempt number `attempt` is refused when the
      link fails that attempt or the packet exceeds the endpoint's maximum
      packet size (the endpoint reports a buffer overflow). */
  predicate Rejected(max: nat, failing: set<nat>, attempt: nat, p: seq<byte>) {
    attempt in failing || |p| > max
  }

  /** The position of the first packet of `packets`, written from attempt
      number `start` on, that the link refuses; `|packets|` when none is. */
  function FirstRejected(max: nat, failing: set<nat>, start: nat, packets: seq<seq<byte>>): (k: nat)
    ensures k <= |packets|
    ensures forall j :: 0 <= j < k ==> !Rejected(max, failing, start + j, packets[j])
    ensures k < |packets| ==> Rejected(max, failing, start + k, packets[k])
    decreases |packets|
  {
    if packets == [] || Rejected(max, failing, start, packets[0]) then 0
    else
      var k := 1 + FirstRejected(max, failing, start + 1, packets[1..]);
      assert forall j :: 1 <= j < k ==> packets[j] == packets[1..][j - 1];
      k
  }

  /** The first refused packet is the one that ends an accepted run. */
  lemma FirstRejectedAt(max: nat, failing: set<nat>, start: nat, packets: seq<seq<byte>>, k: nat)
    requires k <= |packets|
    requires forall j :: 0 <= j < k ==> !Rejected(max, failing, start + j, packets[j])
    requires k < |packets| ==> Rejected(max, failing, start + k, packets[k])
    ensures FirstRejected(max, failing, start, packets) == k
  {
  }

  /** The CDC-ACM class of the USB device. `failing` is the failure oracle:
      the numbers of the write attempts on which the link reports an error. */
  class CdcChannel {
    const maxPacketSize: nat
    const failing: set<nat>
    var attempts: nat
    var written: seq<seq<byte>>

    constructor (maxPacketSize: nat, failing: set<nat>)
      requires maxPacketSize > 0
      ensures this.maxPacketSize == maxPacketSize && this.failing == failing
      ensures attempts == 0 && written == []
    {
      this.maxPacketSize := maxPacketSize;
      this.failing := failing;
      attempts := 0;
      written := [];
    }

    /** `write_packet`: one USB packet, which reaches the host unless refused. */
    method WritePacket(p: seq<byte>) returns (ok: bool)
      modifies this
      ensures ok == !Rejected(maxPacketSize, failing, old(attempts), p)
      ensures attempts == old(attempts) + 1
      ensures written == if ok then old(written) + [p] else old(written)
    {
      ok := !Rejected(maxPacketSize, failing, attempts, p);
      if ok {
        written := written + [p];
      }
      attempts := attempts + 1;
    }
  }

  /** The consumer side of the defmt bbqueue, seen as a queue of records,
      oldest first. A record is at most a `usize` long and never empty. */
  class LogSource {
    var records: seq<seq<byte>>

    ghost predicate Valid()
      reads this
    {
      forall i :: 0 <= i < |records| ==> 0 < |records[i]| <= USIZE_MAX
    }

    constructor (records: seq<seq<byte>>)
      requires forall i :: 0 <= i < |records| ==> 0 < |records[i]| <= USIZE_MAX
      ensures Valid() && this.records == records
    {
      this.records := records;
    }

    /** `read`: the oldest unreleased record, or nothing when the queue is empty. */
    method Read() returns (grant: Option<seq<byte>>)
      requires Valid()
      ensures grant.None? <==> records == []
      ensures grant.Some? ==> grant.value == records[0] && 0 < |grant.value| <= USIZE_MAX
    {
      if records == [] {
        grant := None;
      } else {
        grant := Some(records[0]);
      }
    }

    /** `release(used)` on the grant of the oldest record: frees its first
        `used` bytes (at most the whole record); a fully released record leaves
        the queue. */
    method Release(used: nat)
      requires Valid() && records != []
      modifies this
      ensures Valid()
      ensures used >= |old(records)[0]| ==> records == old(records)[1..]
      ensures used < |old(records)[0]| ==>
        records == [old(records)[0][used..]] + old(records)[1..]
    {
      if used >= |records[0]| {
        records := records[1..];
      } else {
        records := [records[0][used..]] + records[1..];
      }
    }
  }
}
