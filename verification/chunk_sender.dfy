/**
  The host's send / acknowledge / retry loop and its reply heuristic
  (`send_bytes_to_fpga`, vitis/mlp/send_digit_to_fpga.py).

  The serial port is a script: `acks[k]` is what the k-th one-byte read
  returns (None for the empty read at the 2-second timeout), and every read
  past the end of the script times out. `response` is what is waiting when
  the final 64-byte read is made.
*/
module ChunkSender {
  import opened Bytes
  import opened Wrappers
  import opened FrameCodec

  /** What the k-th acknowledgement read returns. */
  function AckAt(acks: seq<Option<byte>>, k: nat): Option<byte>
  {
    if k < |acks| then acks[k] else None
  }

  /**
    The attempt, counted from 0, at which a retry loop whose first read is
    read k first sees ACK_OK, if it does within `retries` attempts.
  */
  function FirstOk(acks: seq<Option<byte>>, k: nat, retries: nat): (r: Option<nat>)
    ensures r.Some? ==> r.value < retries
    decreases retries
  {
    if retries == 0 then None
    else if AckAt(acks, k) == Some(ACK_OK) then Some(0)
    else match FirstOk(acks, k + 1, retries - 1)
      case None => None
      case Some(i) => Some(i + 1)
  }

  /** What FirstOk finds: the first ACK_OK among the next `retries` replies, or none there. */
  lemma {:induction false} FirstOkMeaning(acks: seq<Option<byte>>, k: nat, retries: nat)
    ensures var r := FirstOk(acks, k, retries);
      && (r.Some? ==> AckAt(acks, k + r.value) == Some(ACK_OK))
      && (r.Some? ==> forall j :: k <= j < k + r.value ==> AckAt(acks, j) != Some(ACK_OK))
      && (r.None? ==> forall j :: k <= j < k + retries ==> AckAt(acks, j) != Some(ACK_OK))
    decreases retries
  {
    if retries > 0 && AckAt(acks, k) != Some(ACK_OK) {
      FirstOkMeaning(acks, k + 1, retries - 1);
    }
  }

  /** A reply of ACK_OK at attempt i, after i others, makes i the first. */
  lemma {:induction false} FirstOkAt(acks: seq<Option<byte>>, k: nat, retries: nat, i: nat)
    requires i < retries && AckAt(acks, k + i) == Some(ACK_OK)
    requires forall j :: k <= j < k + i ==> AckAt(acks, j) != Some(ACK_OK)
    ensures FirstOk(acks, k, retries) == Some(i)
    decreases i
  {
    if i > 0 {
      assert AckAt(acks, k) != Some(ACK_OK);
      FirstOkAt(acks, k + 1, retries - 1, i - 1);
    }
  }

  /** No ACK_OK among the `retries` replies from read k: no attempt succeeds. */
  lemma {:induction false} NoOkWithin(acks: seq<Option<byte>>, k: nat, retries: nat)
    requires forall j :: k <= j < k + retries ==> AckAt(acks, j) != Some(ACK_OK)
    ensures FirstOk(acks, k, retries) == None
    decreases retries
  {
    if retries > 0 {
      assert AckAt(acks, k) != Some(ACK_OK);
      NoOkWithin(acks, k + 1, retries - 1);
    }
  }

  datatype TransferOutcome = AllAcked | FailedAt(offset: nat, lastAck: Option<byte>)

  /**
    How a session ends, the packets written in order, and the index of the
    next reply read. The packet for the chunk at offset o is `packet(o)`: the
    frame bytes in the sender, the bare offset when only the order matters.
  */
  datatype Transfer<P> = Transfer(outcome: TransferOutcome, writes: seq<P>, nextRead: nat)

  function Repeat<T>(x: T, n: nat): (r: seq<T>)
    ensures |r| == n && forall i :: 0 <= i < n ==> r[i] == x
  {
    seq(n, _ => x)
  }

  /**
    The session over n bytes from offset o on, with reply k next: each
    chunk's packet is written until the first ACK_OK, at most `retries`
    times; a chunk that gets none ends the session with the last reply read.
  */
  function TransferFrom<P>(n: nat, packet: nat -> P, retries: nat, acks: seq<Option<byte>>, o: nat, k: nat): Transfer<P>
    requires o <= n
    decreases n - o
  {
    if o == n then Transfer(AllAcked, [], k)
    else
      match FirstOk(acks, k, retries)
      case None =>
        var last := if retries == 0 then None else AckAt(acks, k + retries - 1);
        Transfer(FailedAt(o, last), Repeat(packet(o), retries), k + retries)
      case Some(i) =>
        var rest := TransferFrom(n, packet, retries, acks, ChunkEnd(n, o), k + i + 1);
        Transfer(rest.outcome, Repeat(packet(o), i + 1) + rest.writes, rest.nextRead)
  }

  /** A chunk that gets no ACK_OK ends the session there. */
  lemma TransferFails<P>(n: nat, packet: nat -> P, retries: nat, acks: seq<Option<byte>>, o: nat, k: nat)
    requires o < n && FirstOk(acks, k, retries).None?
    ensures TransferFrom(n, packet, retries, acks, o, k)
         == Transfer(FailedAt(o, if retries == 0 then None else AckAt(acks, k + retries - 1)),
                     Repeat(packet(o), retries), k + retries)
  {
  }

  /** A chunk acknowledged at attempt a - 1 is followed by the session from the next chunk. */
  lemma TransferAdvances<P>(n: nat, packet: nat -> P, retries: nat, acks: seq<Option<byte>>, o: nat, k: nat, a: nat)
    requires o < n && FirstOk(acks, k, retries) == Some(a - 1)
    ensures var rest := TransferFrom(n, packet, retries, acks, ChunkEnd(n, o), k + a);
      TransferFrom(n, packet, retries, acks, o, k)
        == Transfer(rest.outcome, Repeat(packet(o), a) + rest.writes, rest.nextRead)
  {
  }

  /** `make_chunk(o, data[o:o+240])` for each offset o. */
  function Framer(data: seq<byte>): nat -> seq<byte>
  {
    (o: nat) => Frame(o, ChunkAt(data, o))
  }

  /** How the reply after the transfer is read: one raw byte, or the bytes and their decoded text. */
  datatype Reply = RawDigit(digit: byte) | TextReply(bytes: seq<byte>, text: string)

  /** `s.read(64)`: at most 64 of the waiting bytes. */
  function ReadWindow(response: seq<byte>): (r: seq<byte>)
    ensures |r| <= 64 && r <= response
  {
    if |response| <= 64 then response else response[..64]
  }

  /**
    The heuristic: a non-empty reply whose first byte is not 'P' or 'p' is a
    raw digit (that byte, with no range check); anything else is decoded as
    ASCII, with U+FFFD for the bytes of 128 or more, and shown as text.
  */
  function ClassifyReply(resp: seq<byte>): (r: Reply)
    ensures r.RawDigit? <==> |resp| >= 1 && resp[0] != 0x50 && resp[0] != 0x70
    ensures r.RawDigit? ==> r.digit == resp[0]
    ensures r.TextReply? ==> r.bytes == resp && r.text == AsciiDecode(resp)
  {
    if |resp| >= 1 && resp[0] != 0x50 && resp[0] != 0x70 then RawDigit(resp[0]) else TextReply(resp, AsciiDecode(resp))
  }

  datatype SendResult = Sent(reply: Option<Reply>) | ChunkFailed(offset: nat, lastAck: Option<byte>)

  /**
    One chunk's retry loop: write the packet, read one byte, stop at ACK_OK;
    after `retries` attempts without one, give up with the last reply read.
  */
  method SendWithRetries(pkt: seq<byte>, retries: nat, acks: seq<Option<byte>>, k: nat)
    returns (ok: bool, lastAck: Option<byte>, attempts: nat, sent: seq<seq<byte>>)
    ensures ok <==> FirstOk(acks, k, retries).Some?
    ensures ok ==> attempts == FirstOk(acks, k, retries).value + 1
    ensures !ok ==> attempts == retries
    ensures !ok ==> lastAck == if retries == 0 then None else AckAt(acks, k + retries - 1)
    ensures sent == Repeat(pkt, attempts)
  {
    ok := false;
    lastAck := None;
    attempts := 0;
    sent := [];
    while attempts < retries && !ok
      invariant 0 <= attempts <= retries
      invariant sent == Repeat(pkt, attempts)
      invariant !ok ==> forall j :: k <= j < k + attempts ==> AckAt(acks, j) != Some(ACK_OK)
      invariant ok ==> attempts >= 1 && FirstOk(acks, k, retries) == Some(attempts - 1)
      invariant attempts == 0 ==> lastAck == None
      invariant attempts > 0 ==> lastAck == AckAt(acks, k + attempts - 1)
    {
      sent := sent + [pkt];
      var ack := AckAt(acks, k + attempts);
      lastAck := ack;
      attempts := attempts + 1;
      if ack == Some(ACK_OK) {
        ok := true;
        FirstOkAt(acks, k, retries, attempts - 1);
      }
      // ACK_BAD, an empty read and any other byte each use up one attempt
    }
    if !ok {
      NoOkWithin(acks, k, retries);
    }
  }

  /** One pass of the outer loop: slice the chunk at `offset`, frame it, send it with retries. */
  method SendChunk(data: seq<byte>, offset: nat, retries: nat, acks: seq<Option<byte>>, k: nat)
    returns (ok: bool, lastAck: Option<byte>, sent: seq<seq<byte>>, next: nat, nextK: nat)
    requires offset < |data|
    ensures offset < next <= |data|
    ensures !ok ==>
      TransferFrom(|data|, Framer(data), retries, acks, offset, k) == Transfer(FailedAt(offset, lastAck), sent, nextK)
    ensures ok ==> var rest := TransferFrom(|data|, Framer(data), retries, acks, next, nextK);
      TransferFrom(|data|, Framer(data), retries, acks, offset, k) == Transfer(rest.outcome, sent + rest.writes, rest.nextRead)
  {
    var chunk := data[offset..ChunkEnd(|data|, offset)];
    var pkt := MakeChunk(offset, chunk).value;
    assert pkt == Framer(data)(offset);
    var attempts;
    ok, lastAck, attempts, sent := SendWithRetries(pkt, retries, acks, k);
    next := offset + |chunk|;
    nextK := k + attempts;
    assert next == ChunkEnd(|data|, offset);
    if ok {
      TransferAdvances(|data|, Framer(data), retries, acks, offset, k, attempts);
    } else {
      TransferFails(|data|, Framer(data), retries, acks, offset, k);
    }
  }

  /** `send_bytes_to_fpga(data, retries=retries, read_back=readBack)`. */
  method SendBytesToFpga(data: seq<byte>, retries: nat, readBack: bool,
                         acks: seq<Option<byte>>, response: seq<byte>)
    returns (result: SendResult, written: seq<seq<byte>>)
    ensures var t := TransferFrom(|data|, Framer(data), retries, acks, 0, 0);
      && written == t.writes
      && (t.outcome.FailedAt? ==> result == ChunkFailed(t.outcome.offset, t.outcome.lastAck))
      && (t.outcome.AllAcked? ==>
            result == Sent(if readBack then Some(ClassifyReply(ReadWindow(response))) else None))
  {
    var offset := 0;
    var k := 0;
    written := [];
    ghost var whole := TransferFrom(|data|, Framer(data), retries, acks, 0, 0);
    assert written + whole.writes == whole.writes;
    while offset < |data|
      invariant 0 <= offset <= |data|
      invariant whole.outcome == TransferFrom(|data|, Framer(data), retries, acks, offset, k).outcome
      invariant whole.writes == written + TransferFrom(|data|, Framer(data), retries, acks, offset, k).writes
      decreases |data| - offset
    {
      var ok, lastAck, sent, next, nextK := SendChunk(data, offset, retries, acks, k);
      written := written + sent;
      if !ok {
        result := ChunkFailed(offset, lastAck);
        return;
      }
      offset, k := next, nextK;
    }
    assert written + [] == written;
    if !readBack {
      result := Sent(None);
      return;
    }
    result := Sent(Some(ClassifyReply(ReadWindow(response))));
  }

  // ---------------------------------------------------------------- properties of a session

  /** The packets of the given offsets, in order. */
  function MapPackets<P>(packet: nat -> P, offs: seq<nat>): (r: seq<P>)
    ensures |r| == |offs| && forall i :: 0 <= i < |offs| ==> r[i] == packet(offs[i])
  {
    seq(|offs|, i requires 0 <= i < |offs| => packet(offs[i]))
  }

  /** When every reply is ACK_OK, each chunk's packet is written exactly once, in offset order. */
  lemma {:induction false} AllOkSendsEachChunkOnce<P>(n: nat, packet: nat -> P, retries: nat, acks: seq<Option<byte>>, o: nat, k: nat)
    requires o <= n && retries >= 1
    requires forall j :: k <= j < k + |ChunkOffsets(n, o)| ==> AckAt(acks, j) == Some(ACK_OK)
    ensures TransferFrom(n, packet, retries, acks, o, k)
         == Transfer(AllAcked, MapPackets(packet, ChunkOffsets(n, o)), k + |ChunkOffsets(n, o)|)
    decreases n - o
  {
    if o < n {
      var e := ChunkEnd(n, o);
      assert ChunkOffsets(n, o) == [o] + ChunkOffsets(n, e);
      assert AckAt(acks, k) == Some(ACK_OK);
      FirstOkAt(acks, k, retries, 0);
      AllOkSendsEachChunkOnce(n, packet, retries, acks, e, k + 1);
      assert MapPackets(packet, ChunkOffsets(n, o)) == [packet(o)] + MapPackets(packet, ChunkOffsets(n, e));
      assert Repeat(packet(o), 1) == [packet(o)];
    }
  }

  /**
    A failed session fails at a chunk from o on, and its last `retries`
    writes are that chunk's packet.
  */
  lemma {:induction false} FailureRepeatsLastChunk<P>(n: nat, packet: nat -> P, retries: nat, acks: seq<Option<byte>>, o: nat, k: nat)
    requires o <= n
    ensures var t := TransferFrom(n, packet, retries, acks, o, k);
      t.outcome.FailedAt? ==>
        && o <= t.outcome.offset < n
        && |t.writes| >= retries
        && t.writes[|t.writes| - retries..] == Repeat(packet(t.outcome.offset), retries)
    decreases n - o
  {
    if o < n {
      match FirstOk(acks, k, retries)
      case None =>
        TransferFails(n, packet, retries, acks, o, k);
        var w := Repeat(packet(o), retries);
        assert w[|w| - retries..] == w;
      case Some(i) =>
        TransferAdvances(n, packet, retries, acks, o, k, i + 1);
        var e := ChunkEnd(n, o);
        var rest := TransferFrom(n, packet, retries, acks, e, k + i + 1);
        FailureRepeatsLastChunk(n, packet, retries, acks, e, k + i + 1);
        if rest.outcome.FailedAt? {
          var w := Repeat(packet(o), i + 1) + rest.writes;
          assert w[|w| - retries..] == rest.writes[|rest.writes| - retries..];
        }
    }
  }

  /**
    Every packet written is that of a chunk at some offset p from o on, the
    offsets listed in order of writing; in a failed session p is at most the
    failing offset, so no later chunk is sent.
  */
  lemma {:induction false} WritesAreChunkPackets<P>(n: nat, packet: nat -> P, retries: nat, acks: seq<Option<byte>>, o: nat, k: nat)
      returns (offs: seq<nat>)
    requires o <= n
    ensures var t := TransferFrom(n, packet, retries, acks, o, k);
      && t.writes == MapPackets(packet, offs)
      && forall j :: 0 <= j < |offs| ==> o <= offs[j] < n && (t.outcome.FailedAt? ==> offs[j] <= t.outcome.offset)
    decreases n - o
  {
    if o == n {
      offs := [];
    } else {
      match FirstOk(acks, k, retries)
      case None =>
        TransferFails(n, packet, retries, acks, o, k);
        offs := Repeat(o, retries);
      case Some(i) =>
        var e := ChunkEnd(n, o);
        TransferAdvances(n, packet, retries, acks, o, k, i + 1);
        var later := WritesAreChunkPackets(n, packet, retries, acks, e, k + i + 1);
        FailureRepeatsLastChunk(n, packet, retries, acks, e, k + i + 1);
        offs := Repeat(o, i + 1) + later;
        MapPacketsPrepend(packet, o, i + 1, later);
    }
  }

  /** The packets of a chunk sent `a` times, then those of the later offsets. */
  lemma MapPacketsPrepend<P>(packet: nat -> P, o: nat, a: nat, later: seq<nat>)
    ensures MapPackets(packet, Repeat(o, a) + later) == Repeat(packet(o), a) + MapPackets(packet, later)
  {
  }

  /** Two reply scripts that agree on where ACK_OK is. */
  ghost predicate SameOks(a1: seq<Option<byte>>, a2: seq<Option<byte>>)
  {
    forall j: nat :: AckAt(a1, j) == Some(ACK_OK) <==> AckAt(a2, j) == Some(ACK_OK)
  }

  lemma {:induction false} FirstOkSeesOnlyOk(a1: seq<Option<byte>>, a2: seq<Option<byte>>, k: nat, retries: nat)
    requires SameOks(a1, a2)
    ensures FirstOk(a1, k, retries) == FirstOk(a2, k, retries)
    decreases retries
  {
    if retries > 0 {
      assert AckAt(a1, k) == Some(ACK_OK) <==> AckAt(a2, k) == Some(ACK_OK);
      FirstOkSeesOnlyOk(a1, a2, k + 1, retries - 1);
    }
  }

  /**
    ACK_BAD, an empty read at the timeout and any other byte are treated
    alike: each uses up one attempt. Only where ACK_OK arrives decides what
    is written and where the session ends.
  */
  lemma {:induction false} OnlyOkMatters<P>(n: nat, packet: nat -> P, retries: nat, a1: seq<Option<byte>>, a2: seq<Option<byte>>, o: nat, k: nat)
    requires o <= n && SameOks(a1, a2)
    ensures var t1 := TransferFrom(n, packet, retries, a1, o, k);
      var t2 := TransferFrom(n, packet, retries, a2, o, k);
      && t1.writes == t2.writes && t1.nextRead == t2.nextRead
      && t1.outcome.AllAcked? == t2.outcome.AllAcked?
      && (t1.outcome.FailedAt? ==> t1.outcome.offset == t2.outcome.offset)
    decreases n - o
  {
    if o < n {
      FirstOkSeesOnlyOk(a1, a2, k, retries);
      match FirstOk(a1, k, retries)
      case None =>
      case Some(i) =>
        OnlyOkMatters(n, packet, retries, a1, a2, ChunkEnd(n, o), k + i + 1);
    }
  }

  /**
    A 784-byte image with replies BAD, BAD, OK for the first chunk and OK for
    each later one: the first chunk goes out three times, then the three
    others once each, and all six replies are consumed.
  */
  lemma RetriedFirstChunk<P>(packet: nat -> P)
    ensures TransferFrom(784, packet, 3, [Some(ACK_BAD), Some(ACK_BAD), Some(ACK_OK), Some(ACK_OK), Some(ACK_OK), Some(ACK_OK)], 0, 0)
         == Transfer(AllAcked, [packet(0), packet(0), packet(0), packet(240), packet(480), packet(720)], 6)
  {
    var acks := [Some(ACK_BAD), Some(ACK_BAD), Some(ACK_OK), Some(ACK_OK), Some(ACK_OK), Some(ACK_OK)];
    FirstOkAt(acks, 0, 3, 2);
    ImageOffsets();
    assert ChunkOffsets(784, 240) == [240, 480, 720];
    AllOkSendsEachChunkOnce(784, packet, 3, acks, 240, 3);
    assert Repeat(packet(0), 3) == [packet(0), packet(0), packet(0)];
  }

  /** With no retries allowed, a non-empty transfer fails at offset 0 having written nothing. */
  lemma ZeroRetriesFailsAtOnce<P>(n: nat, packet: nat -> P, acks: seq<Option<byte>>)
    requires n > 0
    ensures TransferFrom(n, packet, 0, acks, 0, 0) == Transfer(FailedAt(0, None), [], 0)
  {
  }

  /** An empty transfer writes nothing and succeeds whatever the replies. */
  lemma EmptyTransferSendsNothing<P>(packet: nat -> P, retries: nat, acks: seq<Option<byte>>)
    ensures TransferFrom(0, packet, retries, acks, 0, 0) == Transfer(AllAcked, [], 0)
  {
  }
}
