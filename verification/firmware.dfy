/**
  The firmware's `main` in vitis/mlp/app.c: print a banner, then forever
  receive an image over the chunk protocol, run the network on it, print the
  prediction as a text line and send it once more as a raw byte. The text and
  the protocol bytes share one UART, so both are modelled as bytes appended
  to the receiver's output.

  The end of the file pairs the firmware with the host sender of
  vitis/mlp/send_digit_to_fpga.py.
*/
module Firmware {
  import opened Bytes
  import opened Wrappers
  import opened Text
  import opened FrameCodec
  import opened ChunkReceiver
  import opened Mlp
  import opened ChunkSender

  const BANNER: string := "Ready. Send 784 bytes using chunk protocol. Use --gray.\r\n"

  /** `xil_printf("Pred: %d\r\n", digit)` for a digit 0 to 9. */
  function PredText(d: nat): (s: string)
    requires d < OUT
    ensures |s| == 9 && s[..6] == "Pred: " && s[7..] == "\r\n"
    ensures IsDigit(s[6]) && DigitValue(s[6]) == d
  {
    "Pred: " + IntToString(d) + "\r\n"
  }

  /** What `main` writes after each image: the text line, then the digit as one raw byte. */
  function Reply(d: nat): (r: seq<byte>)
    requires d < OUT
    ensures |r| == 10 && r[..9] == TextBytes(PredText(d)) && r[9] as int == d
  {
    TextBytes(PredText(d)) + [ToByte(d)]
  }

  /** What the `main` loop does with the bytes it will receive. */
  datatype Served = Served(digits: seq<nat>, sent: seq<byte>, rest: seq<byte>)

  /**
    The `while (1)` loop of `main` on the bytes still to arrive, with `recv`
    for `recv_image_784`; it stops where that would wait forever.
  */
  function MainLoop(recv: ImageRecv, w: Weights, input: seq<byte>): Served
    requires Progresses(recv) && WellShaped(w)
    decreases |input|
  {
    var r := recv(input);
    if !r.complete then Served([], r.sent, r.rest)
    else
      var d := FirstMax(Logits(w, r.img));
      var next := MainLoop(recv, w, r.rest);
      Served([d] + next.digits, r.sent + Reply(d) + next.sent, next.rest)
  }

  function Then(digits: seq<nat>, sent: seq<byte>, s: Served): Served
  {
    Served(digits + s.digits, sent + s.sent, s.rest)
  }

  /** `main`: the banner, then one prediction per image received. */
  method Run(rx: Receiver, w: Weights, ghost recv: ImageRecv) returns (digits: seq<nat>)
    requires rx.Valid() && WellShaped(w) && IsImageFromStream(recv) && Progresses(recv)
    modifies rx, rx.img, rx.gotMap
    ensures var s := MainLoop(recv, w, old(rx.input));
      && digits == s.digits && rx.input == s.rest
      && rx.output == old(rx.output) + TextBytes(BANNER) + s.sent
  {
    rx.output := rx.output + TextBytes(BANNER);
    digits := [];
    ghost var whole := Then([], rx.output, MainLoop(recv, w, rx.input));
    assert [] + MainLoop(recv, w, rx.input).digits == MainLoop(recv, w, rx.input).digits;
    while true
      invariant rx.Valid()
      invariant whole == Then(digits, rx.output, MainLoop(recv, w, rx.input))
      decreases |rx.input|
    {
      var served := Round(rx, w, recv, whole, digits);
      if served.None? {
        return;
      }
      digits := digits + [served.value];
    }
  }

  /** One turn of the `main` loop, stated against what the whole loop does. */
  method Round(rx: Receiver, w: Weights, ghost recv: ImageRecv, ghost whole: Served, ghost digits: seq<nat>)
    returns (served: Option<nat>)
    requires rx.Valid() && WellShaped(w) && IsImageFromStream(recv) && Progresses(recv)
    requires whole == Then(digits, rx.output, MainLoop(recv, w, rx.input))
    modifies rx, rx.img, rx.gotMap
    ensures rx.Valid()
    ensures served.None? ==> whole == Served(digits, rx.output, rx.input)
    ensures served.Some? ==>
      && |rx.input| < old(|rx.input|)
      && whole == Then(digits + [served.value], rx.output, MainLoop(recv, w, rx.input))
  {
    MainLoopStep(recv, w, rx.input, digits, rx.output, whole);
    var complete := rx.RecvImage784(recv);
    if !complete {
      return None;
    }
    var d := Answer(rx, w);
    return Some(d);
  }

  /** The prediction and the two replies of one turn: the text line, then the raw byte. */
  method Answer(rx: Receiver, w: Weights) returns (d: nat)
    requires rx.Valid() && WellShaped(w)
    modifies rx
    ensures rx.Valid() && d == FirstMax(Logits(w, rx.img[..]))
    ensures rx.input == old(rx.input) && rx.output == old(rx.output) + Reply(d)
  {
    d := Predict(w, rx.img);
    rx.output := rx.output + TextBytes(PredText(d));
    rx.SendByte(ToByte(d));
  }

  /** The `main` loop on `input`, seen after the replies `out` and the digits `digits` so far. */
  lemma MainLoopStep(recv: ImageRecv, w: Weights, input: seq<byte>, digits: seq<nat>, out: seq<byte>, whole: Served)
    requires Progresses(recv) && WellShaped(w)
    requires whole == Then(digits, out, MainLoop(recv, w, input))
    ensures var r := recv(input);
      && (!r.complete ==> whole == Served(digits, out + r.sent, r.rest))
      && (r.complete ==>
            var d := FirstMax(Logits(w, r.img));
            whole == Then(digits + [d], out + r.sent + Reply(d), MainLoop(recv, w, r.rest)))
  {
    var r := recv(input);
    if !r.complete {
      assert digits + [] == digits;
    } else {
      var d := FirstMax(Logits(w, r.img));
      var next := MainLoop(recv, w, r.rest);
      assert digits + ([d] + next.digits) == digits + [d] + next.digits;
      assert out + (r.sent + Reply(d) + next.sent) == out + r.sent + Reply(d) + next.sent;
    }
  }

  // ---------------------------------------------------------------------
  // The host sender and the firmware together

  /** The replies the host reads when the firmware's bytes arrive in time: each one as it was sent. */
  function Heard(sent: seq<byte>): (acks: seq<Option<byte>>)
    ensures |acks| == |sent| && forall i :: 0 <= i < |sent| ==> acks[i] == Some(sent[i])
  {
    seq(|sent|, i requires 0 <= i < |sent| => Some(sent[i]))
  }

  /** The packets of a session in which each chunk goes out once, laid end to end, are the stream of frames. */
  lemma {:induction false} WritesFormStream(data: seq<byte>, o: nat)
    requires o <= |data|
    ensures Concat(MapPackets(Framer(data), ChunkOffsets(|data|, o))) == Stream(data, o)
    decreases |data| - o
  {
    if o < |data| {
      var e := ChunkEnd(|data|, o);
      var later := MapPackets(Framer(data), ChunkOffsets(|data|, e));
      WritesFormStream(data, e);
      assert MapPackets(Framer(data), ChunkOffsets(|data|, o)) == [Framer(data)(o)] + later;
      ConcatCons(Framer(data)(o), later);
    }
  }

  /**
    One image from `send_bytes_to_fpga` to `recv_image_784`: the firmware
    answers each of the host's four frames with ACK_OK, so the host sends
    each frame once and finishes, and the firmware's buffer then holds
    exactly the host's 784 bytes.
  */
  lemma SessionDelivers(data: seq<byte>, retries: nat, tail: seq<byte>)
    requires |data| == IMG_BYTES && retries >= 1
    ensures var r := ImageFromStream(Stream(data, 0) + tail);
      var t := TransferFrom(IMG_BYTES, Framer(data), retries, Heard(r.sent), 0, 0);
      && r.complete && r.img == data && r.rest == tail
      && t.outcome == AllAcked && t.nextRead == |r.sent|
      && Concat(t.writes) == Stream(data, 0)
  {
    ImageReassembles(data, tail);
    HostSendsEachFrameOnce(data, retries);
  }

  /** Four ACK_OK replies take the host through a 784-byte image writing each frame once. */
  lemma HostSendsEachFrameOnce(data: seq<byte>, retries: nat)
    requires |data| == IMG_BYTES && retries >= 1
    ensures var t := TransferFrom(IMG_BYTES, Framer(data), retries, Heard([ACK_OK, ACK_OK, ACK_OK, ACK_OK]), 0, 0);
      && t.outcome == AllAcked && t.nextRead == 4
      && Concat(t.writes) == Stream(data, 0)
  {
    var acks := Heard([ACK_OK, ACK_OK, ACK_OK, ACK_OK]);
    ImageOffsets();
    assert forall j :: 0 <= j < 4 ==> AckAt(acks, j) == Some(ACK_OK);
    AllOkSendsEachChunkOnce(IMG_BYTES, Framer(data), retries, acks, 0, 0);
    WritesFormStream(data, 0);
  }

  /**
    The host's 64-byte read after the transfer starts with the firmware's
    "Pred: " line, so its heuristic takes the reply for text and never for
    a raw digit, although the digit byte follows within the same read.
  */
  lemma HostReadsText(d: nat, more: seq<byte>)
    requires d < OUT
    ensures var window := ReadWindow(Reply(d) + more);
      && ClassifyReply(window) == TextReply(window, AsciiDecode(window))
      && window[..10] == Reply(d)
      && window[9] as int == d
      && AsciiDecode(window)[..9] == PredText(d)
  {
    var window := ReadWindow(Reply(d) + more);
    assert window[..10] == (Reply(d) + more)[..10] == Reply(d);
    ReplyStartsWithP(d);
    assert window[..9] == Reply(d)[..9] == TextBytes(PredText(d));
    PredTextAscii(d);
    DecodeEncode(PredText(d));
    DecodePrefix(window, 9);
  }

  /** The Pred line is plain ASCII. */
  lemma PredTextAscii(d: nat)
    requires d < OUT
    ensures IsAscii(PredText(d))
  {
    var s := PredText(d);
    assert s[..6] == "Pred: " && s[7..] == "\r\n";
    forall i | 0 <= i < |s|
      ensures s[i] as int < 128
    {
      if i < 6 {
        assert s[i] == s[..6][i];
      } else if i > 6 {
        assert s[i] == s[7..][i - 7];
      }
    }
  }

  /** The first byte of every reply is the 'P' of "Pred: ". */
  lemma ReplyStartsWithP(d: nat)
    requires d < OUT
    ensures Reply(d)[0] == 0x50
  {
    var text := PredText(d);
    assert text[0] == text[..6][0] == 'P';
    assert Reply(d)[0] == TextBytes(text)[0] == CharByte('P');
  }

  /**
    The firmware fed the host's frames for `data`: the first thing it does
    is acknowledge the four frames and reply with the network's prediction
    for `data`; then it serves whatever follows.
  */
  lemma FirstPrediction(recv: ImageRecv, w: Weights, data: seq<byte>, tail: seq<byte>)
    requires Progresses(recv) && IsImageFromStream(recv) && WellShaped(w) && |data| == IMG_BYTES
    ensures var d := FirstMax(Logits(w, data));
      MainLoop(recv, w, Stream(data, 0) + tail)
        == Then([d], [ACK_OK, ACK_OK, ACK_OK, ACK_OK] + Reply(d), MainLoop(recv, w, tail))
  {
    var input := Stream(data, 0) + tail;
    assert recv(input) == ImageFromStream(input);
    ImageReassembles(data, tail);
  }
}
