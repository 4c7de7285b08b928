/**
  The firmware side of the chunk protocol (vitis/mlp/app.c): resynchronising
  on the start byte, validating the header, painting the payload into the
  784-byte image while keeping the "already written" map and its count, and
  answering ACK_OK or ACK_BAD.

  The UART is a script: `input` is every byte the host will ever send, and a
  read from an empty script is where the firmware would block forever
  (`Starved`). `output` collects every byte the firmware sends.
*/
module ChunkReceiver {
  import opened Bytes
  import opened Wrappers
  import opened FrameCodec

  const IMG_BYTES: nat := 784

  /** Accepted and Rejected are the C function's 1 and 0; Starved means the input ran dry. */
  datatype Outcome = Accepted | Rejected | Starved

  /** The state one call of `recv_and_apply_chunk` leaves behind and the bytes it sent. */
  datatype Rx = Rx(outcome: Outcome, img: seq<byte>, got: seq<bool>, count: int,
                   rest: seq<byte>, sent: seq<byte>)

  function CountTrue(s: seq<bool>): (n: nat)
    ensures n <= |s|
  {
    if s == [] then 0 else CountTrue(s[..|s| - 1]) + (if s[|s| - 1] then 1 else 0)
  }

  function CountFalse(s: seq<bool>): (n: nat)
    ensures n <= |s|
  {
    if s == [] then 0 else CountFalse(s[..|s| - 1]) + (if s[|s| - 1] then 0 else 1)
  }

  function Trues(n: nat): (r: seq<bool>)
    ensures |r| == n && forall i :: 0 <= i < n ==> r[i]
  {
    seq(n, _ => true)
  }

  /** `s` with `v` written over it from index `at` on. */
  function Overwrite<T>(s: seq<T>, at: nat, v: seq<T>): (r: seq<T>)
    requires at + |v| <= |s|
    ensures |r| == |s|
    ensures forall i :: 0 <= i < |s| ==> r[i] == if at <= i < at + |v| then v[i - at] else s[i]
  {
    s[..at] + v + s[at + |v|..]
  }

  /** The value of a byte, 0 to 255. */
  function Value(b: byte): (v: nat)
    ensures v < 256
  {
    b as int
  }

  /** The little-endian 16-bit offset `off_lo | off_hi << 8`. */
  function U16(lo: byte, hi: byte): (v: nat)
    ensures v < 65536
  {
    Value(lo) + 256 * Value(hi)
  }

  /** Position of the first start byte: the bytes the resync loop throws away. */
  function FindStart(input: seq<byte>): (r: Option<nat>)
    ensures r.Some? ==> r.value < |input| && input[r.value] == START
    ensures r.Some? ==> forall j :: 0 <= j < r.value ==> input[j] != START
    ensures r.None? ==> forall j :: 0 <= j < |input| ==> input[j] != START
  {
    if input == [] then None
    else if input[0] == START then Some(0)
    else match FindStart(input[1..])
      case None => None
      case Some(i) => Some(i + 1)
  }

  /**
    `recv_and_apply_chunk` on the image `img`, the map `got`, the counter
    `count` and the bytes still to arrive: drop bytes up to and including the
    first start byte, then read the rest of the frame.
  */
  function RecvChunk(img: seq<byte>, got: seq<bool>, count: int, input: seq<byte>): (r: Rx)
    requires |img| == IMG_BYTES && |got| == IMG_BYTES
    ensures |r.img| == IMG_BYTES && |r.got| == IMG_BYTES
    ensures r.outcome != Starved ==> |r.rest| < |input|
  {
    match FindStart(input)
    case None => Rx(Starved, img, got, count, [], [])
    case Some(s) => AfterStart(img, got, count, input[s + 1..])
  }

  /** `AfterStart` case by case. */
  lemma {:induction false} AfterStartCases(img: seq<byte>, got: seq<bool>, count: int, h: seq<byte>)
    requires |img| == IMG_BYTES && |got| == IMG_BYTES
    ensures |h| < 4 ==> AfterStart(img, got, count, h) == Rx(Starved, img, got, count, [], [])
    ensures |h| >= 4 && h[0] != TYPE_DATA ==>
      AfterStart(img, got, count, h) == Rx(Rejected, img, got, count, h[4..], [ACK_BAD])
    ensures |h| >= 4 && h[0] == TYPE_DATA && (Value(h[3]) == 0 || U16(h[1], h[2]) + Value(h[3]) > IMG_BYTES) ==>
      AfterStart(img, got, count, h)
      == if |h| < Value(h[3]) + 5 then Rx(Starved, img, got, count, [], [])
         else Rx(Rejected, img, got, count, h[Value(h[3]) + 5..], [ACK_BAD])
    ensures |h| >= 4 && h[0] == TYPE_DATA && !(Value(h[3]) == 0 || U16(h[1], h[2]) + Value(h[3]) > IMG_BYTES) ==>
      AfterStart(img, got, count, h) == ApplyPayload(img, got, count, h[..4], U16(h[1], h[2]), Value(h[3]), h[4..])
  {
    if |h| >= 4 && Value(h[3]) + 5 <= |h| {
      assert h[4..][Value(h[3]) + 1..] == h[Value(h[3]) + 5..];
    }
  }

  /** The four header bytes and the two header checks, `h` starting right after the start byte. */
  function AfterStart(img: seq<byte>, got: seq<bool>, count: int, h: seq<byte>): (r: Rx)
    requires |img| == IMG_BYTES && |got| == IMG_BYTES
    ensures |r.img| == IMG_BYTES && |r.got| == IMG_BYTES
    ensures r.outcome != Starved ==> |r.rest| <= |h|
  {
    if |h| < 4 then Rx(Starved, img, got, count, [], [])
    else
      var body := h[4..];
      if h[0] != TYPE_DATA then Rx(Rejected, img, got, count, body, [ACK_BAD])
      else
        var offset := U16(h[1], h[2]);
        var n := Value(h[3]);
        if n == 0 || offset + n > IMG_BYTES then
          // the payload and checksum are read and dropped
          if |body| < n + 1 then Rx(Starved, img, got, count, [], [])
          else Rx(Rejected, img, got, count, body[n + 1..], [ACK_BAD])
        else ApplyPayload(img, got, count, h[..4], offset, n, body)
  }

  /**
    The payload loop and the checksum test of a frame whose header passed:
    each payload byte is written to `img[offset + i]` as it arrives, before
    the checksum is known.
  */
  function ApplyPayload(img: seq<byte>, got: seq<bool>, count: int, header: seq<byte>,
                        offset: nat, n: nat, body: seq<byte>): (r: Rx)
    requires |img| == IMG_BYTES && |got| == IMG_BYTES
    requires offset + n <= IMG_BYTES
    ensures |r.img| == IMG_BYTES && |r.got| == IMG_BYTES
    ensures r.outcome != Starved ==> |r.rest| < |body|
  {
    var p := if |body| < n then |body| else n;
    var payload := body[..p];
    var img' := Overwrite(img, offset, payload);
    var got' := Overwrite(got, offset, Trues(p));
    var count' := count + CountFalse(got[offset..offset + p]);
    if |body| < n + 1 then Rx(Starved, img', got', count', [], [])
    else if body[n] == XorFold(header + payload) then
      Rx(Accepted, img', got', count', body[n + 1..], [ACK_OK])
    else Rx(Rejected, img', got', count', body[n + 1..], [ACK_BAD])
  }

  /** What `recv_image_784` leaves behind; `complete` is false when the input ran dry first. */
  datatype ImageRx = ImageRx(complete: bool, img: seq<byte>, got: seq<bool>, count: int,
                             rest: seq<byte>, sent: seq<byte>)

  /** The `while (got_count < IMG_BYTES)` loop of `recv_image_784`. */
  function ReceiveImage(img: seq<byte>, got: seq<bool>, count: int, input: seq<byte>): (r: ImageRx)
    requires |img| == IMG_BYTES && |got| == IMG_BYTES
    ensures |r.img| == IMG_BYTES && |r.got| == IMG_BYTES
    decreases |input|
  {
    if count >= IMG_BYTES then ImageRx(true, img, got, count, input, [])
    else
      var c := RecvChunk(img, got, count, input);
      if c.outcome == Starved then ImageRx(false, c.img, c.got, c.count, c.rest, c.sent)
      else
        var next := ReceiveImage(c.img, c.got, c.count, c.rest);
        ImageRx(next.complete, next.img, next.got, next.count, next.rest, c.sent + next.sent)
  }

  function Zeros(n: nat): (r: seq<byte>)
    ensures |r| == n && forall i :: 0 <= i < n ==> r[i] == 0
  {
    seq(n, _ => 0)
  }

  function Falses(n: nat): (r: seq<bool>)
    ensures |r| == n && forall i :: 0 <= i < n ==> !r[i]
  {
    seq(n, _ => false)
  }

  /** `r` with `pre` sent before its own replies. */
  function After(pre: seq<byte>, r: ImageRx): ImageRx
  {
    r.(sent := pre + r.sent)
  }

  lemma AfterAfter(a: seq<byte>, b: seq<byte>, r: ImageRx)
    ensures After(a, After(b, r)) == After(a + b, r)
  {
    assert a + (b + r.sent) == (a + b) + r.sent;
  }

  /** A chunk step: buffers and pending input in, buffers, rest and replies out. */
  type Step = (seq<byte>, seq<bool>, int, seq<byte>) -> Rx

  /** Every step that does not starve reads at least one byte. */
  ghost predicate Consumes(step: Step)
  {
    forall img, got, count, input ::
      step(img, got, count, input).outcome != Starved ==> |step(img, got, count, input).rest| < |input|
  }

  /** The `recv_image_784` loop over any chunk step; `ReceiveImage` is this loop over `RecvChunk`. */
  function Collect(step: Step, img: seq<byte>, got: seq<bool>, count: int, input: seq<byte>): ImageRx
    requires Consumes(step)
    decreases |input|
  {
    if count >= IMG_BYTES then ImageRx(true, img, got, count, input, [])
    else
      var c := step(img, got, count, input);
      if c.outcome == Starved then ImageRx(false, c.img, c.got, c.count, c.rest, c.sent)
      else After(c.sent, Collect(step, c.img, c.got, c.count, c.rest))
  }

  /** A step that is `RecvChunk` on 784-byte buffers. */
  ghost predicate IsRecvChunk(step: Step)
  {
    && Consumes(step)
    && forall img, got, count, input {:trigger RecvChunk(img, got, count, input)} ::
         |img| == IMG_BYTES && |got| == IMG_BYTES ==> step(img, got, count, input) == RecvChunk(img, got, count, input)
  }

  function TotalRecvChunk(img: seq<byte>, got: seq<bool>, count: int, input: seq<byte>): (r: Rx)
    ensures r.outcome != Starved ==> |r.rest| < |input|
  {
    if |img| == IMG_BYTES && |got| == IMG_BYTES then RecvChunk(img, got, count, input)
    else Rx(Starved, img, got, count, [], [])
  }

  lemma RecvStep() returns (step: Step)
    ensures IsRecvChunk(step)
  {
    step := TotalRecvChunk;
  }

  lemma {:induction false} CollectAgrees(step: Step, img: seq<byte>, got: seq<bool>, count: int, input: seq<byte>)
    requires IsRecvChunk(step) && |img| == IMG_BYTES && |got| == IMG_BYTES
    ensures Collect(step, img, got, count, input) == ReceiveImage(img, got, count, input)
    decreases |input|
  {
    if count < IMG_BYTES {
      var c := RecvChunk(img, got, count, input);
      assert step(img, got, count, input) == c;
      if c.outcome != Starved {
        CollectAgrees(step, c.img, c.got, c.count, c.rest);
      }
    }
  }

  /** One turn of the `recv_image_784` loop, on the replies sent so far. */
  lemma {:induction false} CollectStep(step: Step, img: seq<byte>, got: seq<bool>, count: int, input: seq<byte>,
                                       done: seq<byte>, whole: ImageRx)
    requires Consumes(step) && count < IMG_BYTES
    requires whole == After(done, Collect(step, img, got, count, input))
    ensures var c := step(img, got, count, input);
      && (c.outcome == Starved ==> whole == ImageRx(false, c.img, c.got, c.count, c.rest, done + c.sent))
      && (c.outcome != Starved ==> whole == After(done + c.sent, Collect(step, c.img, c.got, c.count, c.rest)))
  {
    var c := step(img, got, count, input);
    if c.outcome != Starved {
      AfterAfter(done, c.sent, Collect(step, c.img, c.got, c.count, c.rest));
    }
  }

  /** `recv_image_784` from its `memset`s on. */
  function ImageFromStream(input: seq<byte>): ImageRx
  {
    ReceiveImage(Zeros(IMG_BYTES), Falses(IMG_BYTES), 0, input)
  }

  // ---------------------------------------------------------------------
  // The "already written" map and its counter

  lemma {:induction false} CountsAppend(a: seq<bool>, b: seq<bool>)
    ensures CountTrue(a + b) == CountTrue(a) + CountTrue(b)
    ensures CountFalse(a + b) == CountFalse(a) + CountFalse(b)
    decreases |b|
  {
    if b == [] {
      assert a + b == a;
    } else {
      var b' := b[..|b| - 1];
      assert (a + b)[..|a + b| - 1] == a + b';
      CountsAppend(a, b');
    }
  }

  lemma {:induction false} CountsPartition(s: seq<bool>)
    ensures CountTrue(s) + CountFalse(s) == |s|
  {
    if s != [] {
      CountsPartition(s[..|s| - 1]);
    }
  }

  lemma {:induction false} CountTrueOfTrues(n: nat)
    ensures CountTrue(Trues(n)) == n
  {
    if n > 0 {
      assert Trues(n)[..n - 1] == Trues(n - 1);
      CountTrueOfTrues(n - 1);
    }
  }

  /** A map whose count of set entries is its length has every entry set. */
  lemma {:induction false} FullCountAllSet(s: seq<bool>)
    requires CountTrue(s) == |s|
    ensures forall i :: 0 <= i < |s| ==> s[i]
  {
    if s != [] {
      var s' := s[..|s| - 1];
      assert CountTrue(s') <= |s'|;
      FullCountAllSet(s');
      forall i | 0 <= i < |s|
        ensures s[i]
      {
        if i < |s| - 1 {
          assert s[i] == s'[i];
        }
      }
    }
  }

  /**
    Marking `p` entries from `offset` on raises the number of set entries by
    exactly the number of those entries that were still clear: the
    `if (got_map[idx] == 0) { got_map[idx] = 1; (*got_count)++; }` step.
  */
  lemma {:induction false} MarkCounts(got: seq<bool>, offset: nat, p: nat)
    requires offset + p <= |got|
    ensures CountTrue(Overwrite(got, offset, Trues(p)))
         == CountTrue(got) + CountFalse(got[offset..offset + p])
  {
    var a, m, b := got[..offset], got[offset..offset + p], got[offset + p..];
    var t := Trues(p);
    assert got == (a + m) + b;
    assert Overwrite(got, offset, t) == (a + t) + b;
    CountsAppend(a + m, b);
    CountsAppend(a, m);
    CountsAppend(a + t, b);
    CountsAppend(a, t);
    CountTrueOfTrues(p);
    CountsPartition(m);
  }

  /** Counter equals the number of set entries: what one call keeps true. */
  ghost predicate CountMatches(got: seq<bool>, count: int)
  {
    count == CountTrue(got)
  }

  /**
    One call keeps `got_count` equal to the number of set entries, never
    lowers it, never clears an entry, and never lets the count pass 784.
  */
  lemma {:induction false} RecvChunkKeepsCount(img: seq<byte>, got: seq<bool>, count: int, input: seq<byte>)
    requires |img| == IMG_BYTES && |got| == IMG_BYTES
    requires CountMatches(got, count)
    ensures var r := RecvChunk(img, got, count, input);
      && CountMatches(r.got, r.count)
      && count <= r.count <= IMG_BYTES
      && forall i :: 0 <= i < IMG_BYTES && got[i] ==> r.got[i]
  {
    if FindStart(input).Some? {
      var h := input[FindStart(input).value + 1..];
      if |h| >= 4 && h[0] == TYPE_DATA {
        var offset, n := U16(h[1], h[2]), Value(h[3]);
        if n != 0 && offset + n <= IMG_BYTES {
          ApplyPayloadKeepsCount(img, got, count, h[..4], offset, n, h[4..]);
        }
      }
    }
  }

  lemma {:induction false} ApplyPayloadKeepsCount(img: seq<byte>, got: seq<bool>, count: int, header: seq<byte>,
                                                  offset: nat, n: nat, body: seq<byte>)
    requires |img| == IMG_BYTES && |got| == IMG_BYTES
    requires offset + n <= IMG_BYTES
    requires CountMatches(got, count)
    ensures var r := ApplyPayload(img, got, count, header, offset, n, body);
      && CountMatches(r.got, r.count)
      && count <= r.count <= IMG_BYTES
      && forall i :: 0 <= i < IMG_BYTES && got[i] ==> r.got[i]
  {
    var p := if |body| < n then |body| else n;
    MarkCounts(got, offset, p);
  }

  /**
    `recv_image_784`'s loop keeps the counter honest; when it returns, every
    one of the 784 positions has been written at least once.
  */
  lemma {:induction false} ReceiveImageCompletes(img: seq<byte>, got: seq<bool>, count: int, input: seq<byte>)
    requires |img| == IMG_BYTES && |got| == IMG_BYTES
    requires CountMatches(got, count)
    ensures var r := ReceiveImage(img, got, count, input);
      && CountMatches(r.got, r.count)
      && count <= r.count
      && (r.complete ==> r.count == IMG_BYTES && forall i :: 0 <= i < IMG_BYTES ==> r.got[i])
    decreases |input|
  {
    var r := ReceiveImage(img, got, count, input);
    if count >= IMG_BYTES {
      assert CountTrue(got) <= |got|;
      FullCountAllSet(got);
    } else {
      var c := RecvChunk(img, got, count, input);
      RecvChunkKeepsCount(img, got, count, input);
      if c.outcome != Starved {
        ReceiveImageCompletes(c.img, c.got, c.count, c.rest);
      }
    }
  }

  /** The image-level statement for the loop as the firmware starts it. */
  lemma ImageFromStreamCompletes(input: seq<byte>)
    ensures var r := ImageFromStream(input);
      r.complete ==> r.count == IMG_BYTES && forall i :: 0 <= i < IMG_BYTES ==> r.got[i]
  {
    CountsPartition(Falses(IMG_BYTES));
    NoTrues(IMG_BYTES);
    ReceiveImageCompletes(Zeros(IMG_BYTES), Falses(IMG_BYTES), 0, input);
  }

  /** A completed image has used up at least one byte of its input: `main` cannot spin without reading. */
  lemma {:induction false} ReceiveImageConsumes(img: seq<byte>, got: seq<bool>, count: int, input: seq<byte>)
    requires |img| == IMG_BYTES && |got| == IMG_BYTES
    ensures var r := ReceiveImage(img, got, count, input);
      r.complete ==> |r.rest| <= |input| && (count < IMG_BYTES ==> |r.rest| < |input|)
    decreases |input|
  {
    if count < IMG_BYTES {
      var c := RecvChunk(img, got, count, input);
      if c.outcome != Starved {
        ReceiveImageConsumes(c.img, c.got, c.count, c.rest);
      }
    }
  }

  lemma ImageFromStreamConsumes(input: seq<byte>)
    ensures var r := ImageFromStream(input); r.complete ==> |r.rest| < |input|
  {
    ReceiveImageConsumes(Zeros(IMG_BYTES), Falses(IMG_BYTES), 0, input);
  }

  /** A whole-image receive, as a value: `ImageFromStream` or a stand-in for it. */
  type ImageRecv = seq<byte> -> ImageRx

  /** What callers of `recv_image_784` rely on: a full-size image, and progress when complete. */
  ghost predicate Progresses(recv: ImageRecv)
  {
    forall input :: |recv(input).img| == IMG_BYTES && (recv(input).complete ==> |recv(input).rest| < |input|)
  }

  ghost predicate IsImageFromStream(recv: ImageRecv)
  {
    forall input {:trigger ImageFromStream(input)} :: recv(input) == ImageFromStream(input)
  }

  lemma ImageRecvStep() returns (recv: ImageRecv)
    ensures IsImageFromStream(recv) && Progresses(recv)
  {
    recv := ImageFromStream;
    forall input
      ensures |recv(input).img| == IMG_BYTES && (recv(input).complete ==> |recv(input).rest| < |input|)
    {
      ImageFromStreamConsumes(input);
    }
  }

  lemma {:induction false} NoTrues(n: nat)
    ensures CountTrue(Falses(n)) == 0
  {
    if n > 0 {
      assert Falses(n)[..n - 1] == Falses(n - 1);
      NoTrues(n - 1);
    }
  }

  // ---------------------------------------------------------------------
  // Single frames

  /** A length below 256 survives the trip through its byte. */
  lemma {:induction false} ByteValue(x: nat)
    requires x < 256
    ensures Value(x as bv8) == x
  {
  }

  /** The offset bytes the host writes decode back to the offset. */
  lemma {:induction false} OffsetBytes(offset: nat)
    requires offset < 65536
    ensures U16((offset % 256) as bv8, (offset / 256 % 256) as bv8) == offset
  {
    var lo, hi := offset % 256, offset / 256 % 256;
    assert offset / 256 < 256;
    assert hi == offset / 256;
    ByteValue(lo);
    ByteValue(hi);
  }

  lemma {:induction false} FindStartAfterNoise(junk: seq<byte>, input: seq<byte>)
    requires forall j :: 0 <= j < |junk| ==> junk[j] != START
    ensures FindStart(junk + input) == match FindStart(input)
      case None => None
      case Some(s) => Some(|junk| + s)
  {
    if junk != [] {
      assert (junk + input)[1..] == junk[1..] + input;
      FindStartAfterNoise(junk[1..], input);
    } else {
      assert junk + input == input;
    }
  }

  /** Bytes before the start byte are dropped without effect: the resync loop. */
  lemma {:induction false} ResyncDropsNoise(img: seq<byte>, got: seq<bool>, count: int, junk: seq<byte>, input: seq<byte>)
    requires |img| == IMG_BYTES && |got| == IMG_BYTES
    requires forall j :: 0 <= j < |junk| ==> junk[j] != START
    ensures RecvChunk(img, got, count, junk + input) == RecvChunk(img, got, count, input)
  {
    FindStartAfterNoise(junk, input);
    match FindStart(input)
    case None =>
    case Some(s) =>
      var h := input[s + 1..];
      assert (junk + input)[|junk| + s + 1..] == h;
      RecvChunkFrom(img, got, count, junk + input, |junk| + s, h);
      RecvChunkFrom(img, got, count, input, s, h);
  }

  /** `RecvChunk` once the first start byte is known to sit at `s`, followed by `h`. */
  lemma {:induction false} RecvChunkFrom(img: seq<byte>, got: seq<bool>, count: int, input: seq<byte>, s: nat, h: seq<byte>)
    requires |img| == IMG_BYTES && |got| == IMG_BYTES
    requires FindStart(input) == Some(s) && s < |input| && h == input[s + 1..]
    ensures RecvChunk(img, got, count, input) == AfterStart(img, got, count, h)
  {
  }

  /**
    A frame whose type byte is not TYPE_DATA is answered with ACK_BAD after
    its five header bytes; its payload is left in the stream.
  */
  lemma {:induction false} BadTypeConsumesHeader(img: seq<byte>, got: seq<bool>, count: int,
                              t: byte, lo: byte, hi: byte, len: byte, rest: seq<byte>)
    requires |img| == IMG_BYTES && |got| == IMG_BYTES
    requires t != TYPE_DATA
    ensures RecvChunk(img, got, count, [START, t, lo, hi, len] + rest)
         == Rx(Rejected, img, got, count, rest, [ACK_BAD])
  {
    var input := [START, t, lo, hi, len] + rest;
    assert input[1..][4..] == rest;
  }

  /**
    A frame with length 0, or one running past byte 783, is read to its
    checksum byte and answered with ACK_BAD; the image is untouched.
  */
  lemma {:induction false} BadLengthDropsFrame(img: seq<byte>, got: seq<bool>, count: int,
                            lo: byte, hi: byte, payload: seq<byte>, chk: byte, rest: seq<byte>)
    requires |img| == IMG_BYTES && |got| == IMG_BYTES
    requires |payload| < 256
    requires |payload| == 0 || U16(lo, hi) + |payload| > IMG_BYTES
    ensures RecvChunk(img, got, count, [START, TYPE_DATA, lo, hi, |payload| as bv8] + payload + [chk] + rest)
         == Rx(Rejected, img, got, count, rest, [ACK_BAD])
  {
    var input := [START, TYPE_DATA, lo, hi, |payload| as bv8] + payload + [chk] + rest;
    ByteValue(|payload|);
    assert input[1..][4..] == payload + [chk] + rest;
    assert (payload + [chk] + rest)[|payload| + 1..] == rest;
  }

  /**
    A frame with a good header is painted into the image and marked in the
    map whether or not its checksum matches; the checksum only decides
    between ACK_OK (accepted) and ACK_BAD (rejected).
  */
  lemma {:induction false} ChunkVerdict(img: seq<byte>, got: seq<bool>, count: int,
                     offset: nat, payload: seq<byte>, chk: byte, rest: seq<byte>)
    requires |img| == IMG_BYTES && |got| == IMG_BYTES
    requires 1 <= |payload| < 256 && offset + |payload| <= IMG_BYTES
    ensures var good := chk == XorFold(FrameBody(offset, payload));
      RecvChunk(img, got, count, [START] + FrameBody(offset, payload) + [chk] + rest)
      == Rx(if good then Accepted else Rejected,
            Overwrite(img, offset, payload),
            Overwrite(got, offset, Trues(|payload|)),
            count + CountFalse(got[offset..offset + |payload|]),
            rest,
            [if good then ACK_OK else ACK_BAD])
  {
    var body := FrameBody(offset, payload);
    var input := [START] + body + [chk] + rest;
    var h := input[1..];
    assert h == body + [chk] + rest;
    assert FindStart(input) == Some(0);
    OffsetBytes(offset);
    ByteValue(|payload|);
    assert h[..4] == body[..4];
    assert body == body[..4] + payload;
    assert h[4..] == payload + [chk] + rest;
    assert h[1] == (offset % 256) as bv8 && h[2] == (offset / 256 % 256) as bv8 && h[3] == |payload| as bv8;
    RecvChunkFrom(img, got, count, input, 0, h);
    AfterStartCases(img, got, count, h);
    PayloadArrives(img, got, count, h[..4], offset, payload, chk, rest);
  }

  lemma {:induction false} PayloadArrives(img: seq<byte>, got: seq<bool>, count: int, header: seq<byte>,
                                          offset: nat, payload: seq<byte>, chk: byte, rest: seq<byte>)
    requires |img| == IMG_BYTES && |got| == IMG_BYTES
    requires offset + |payload| <= IMG_BYTES
    ensures var good := chk == XorFold(header + payload);
      ApplyPayload(img, got, count, header, offset, |payload|, payload + [chk] + rest)
      == Rx(if good then Accepted else Rejected,
            Overwrite(img, offset, payload),
            Overwrite(got, offset, Trues(|payload|)),
            count + CountFalse(got[offset..offset + |payload|]),
            rest,
            [if good then ACK_OK else ACK_BAD])
  {
    var body := payload + [chk] + rest;
    assert body[..|payload|] == payload;
    assert body[|payload| + 1..] == rest;
  }

  /** A frame built by the host for a chunk inside the image is accepted and copied. */
  lemma {:induction false} FrameAccepted(img: seq<byte>, got: seq<bool>, count: int,
                      offset: nat, payload: seq<byte>, rest: seq<byte>)
    requires |img| == IMG_BYTES && |got| == IMG_BYTES
    requires 1 <= |payload| < 256 && offset + |payload| <= IMG_BYTES
    ensures RecvChunk(img, got, count, Frame(offset, payload) + rest)
         == Rx(Accepted,
               Overwrite(img, offset, payload),
               Overwrite(got, offset, Trues(|payload|)),
               count + CountFalse(got[offset..offset + |payload|]),
               rest,
               [ACK_OK])
  {
    var body := FrameBody(offset, payload);
    assert Frame(offset, payload) + rest == [START] + body + [XorFold(body)] + rest;
    ChunkVerdict(img, got, count, offset, payload, XorFold(body), rest);
  }

  // ---------------------------------------------------------------------
  // A whole image

  /** The frames the host writes for `data` from offset `o` on, back to back. */
  function Stream(data: seq<byte>, o: nat): seq<byte>
    requires o <= |data|
    decreases |data| - o
  {
    if o == |data| then [] else Frame(o, ChunkAt(data, o)) + Stream(data, ChunkEnd(|data|, o))
  }

  function Acks(n: nat): (r: seq<byte>)
    ensures |r| == n && forall i :: 0 <= i < n ==> r[i] == ACK_OK
  {
    seq(n, _ => ACK_OK)
  }

  lemma {:induction false} CountFalseAllClear(s: seq<bool>)
    requires forall i :: 0 <= i < |s| ==> !s[i]
    ensures CountFalse(s) == |s|
  {
    if s != [] {
      CountFalseAllClear(s[..|s| - 1]);
    }
  }

  /**
    With the bytes before `o` already in place and marked, and nothing from
    `o` on marked, the host's frames from `o` complete the image: every frame
    is acknowledged with ACK_OK, the image equals `data`, and the bytes after
    the last frame are left unread.
  */
  lemma {:induction false} FramesReassemble(data: seq<byte>, o: nat, img: seq<byte>, got: seq<bool>, tail: seq<byte>)
    requires |data| == IMG_BYTES && |img| == IMG_BYTES && |got| == IMG_BYTES && o <= IMG_BYTES
    requires img[..o] == data[..o]
    requires forall i :: 0 <= i < IMG_BYTES ==> got[i] == (i < o)
    ensures ReceiveImage(img, got, o, Stream(data, o) + tail)
         == ImageRx(true, data, Trues(IMG_BYTES), IMG_BYTES, tail, Acks(|ChunkOffsets(IMG_BYTES, o)|))
    decreases IMG_BYTES - o
  {
    if o == IMG_BYTES {
      assert Stream(data, o) + tail == tail;
      assert img == img[..o];
      assert got == Trues(IMG_BYTES);
    } else {
      var e := ChunkEnd(IMG_BYTES, o);
      var later := Stream(data, e) + tail;
      assert Stream(data, o) + tail == Frame(o, ChunkAt(data, o)) + later;
      var img', got' := FrameStep(data, o, img, got, later);
      FramesReassemble(data, e, img', got', tail);
      assert Acks(|ChunkOffsets(IMG_BYTES, o)|) == [ACK_OK] + Acks(|ChunkOffsets(IMG_BYTES, e)|);
    }
  }

  /** One frame of `data` at a chunk boundary `o` extends the finished prefix to the chunk's end. */
  lemma {:induction false} FrameStep(data: seq<byte>, o: nat, img: seq<byte>, got: seq<bool>, later: seq<byte>)
      returns (img': seq<byte>, got': seq<bool>)
    requires |data| == IMG_BYTES && |img| == IMG_BYTES && |got| == IMG_BYTES && o < IMG_BYTES
    requires img[..o] == data[..o]
    requires forall i :: 0 <= i < IMG_BYTES ==> got[i] == (i < o)
    ensures |img'| == IMG_BYTES && |got'| == IMG_BYTES
    ensures RecvChunk(img, got, o, Frame(o, ChunkAt(data, o)) + later)
         == Rx(Accepted, img', got', ChunkEnd(IMG_BYTES, o), later, [ACK_OK])
    ensures img'[..ChunkEnd(IMG_BYTES, o)] == data[..ChunkEnd(IMG_BYTES, o)]
    ensures forall i :: 0 <= i < IMG_BYTES ==> got'[i] == (i < ChunkEnd(IMG_BYTES, o))
  {
    var chunk := ChunkAt(data, o);
    PrefixExtends(data, o, img, got);
    FrameAccepted(img, got, o, o, chunk, later);
    img', got' := Overwrite(img, o, chunk), Overwrite(got, o, Trues(|chunk|));
  }

  /** Writing and marking the chunk at `o` extends the finished prefix to the chunk's end. */
  lemma {:induction false} PrefixExtends(data: seq<byte>, o: nat, img: seq<byte>, got: seq<bool>)
    requires |data| == IMG_BYTES && |img| == IMG_BYTES && |got| == IMG_BYTES && o < IMG_BYTES
    requires img[..o] == data[..o]
    requires forall i :: 0 <= i < IMG_BYTES ==> got[i] == (i < o)
    ensures var e, chunk := ChunkEnd(IMG_BYTES, o), ChunkAt(data, o);
      && 1 <= |chunk| < 256 && o + |chunk| == e
      && o + CountFalse(got[o..e]) == e
      && Overwrite(img, o, chunk)[..e] == data[..e]
      && forall i :: 0 <= i < IMG_BYTES ==> Overwrite(got, o, Trues(|chunk|))[i] == (i < e)
  {
    var e := ChunkEnd(IMG_BYTES, o);
    var chunk := ChunkAt(data, o);
    assert chunk == data[o..e];
    CountFalseAllClear(got[o..e]);
    assert Overwrite(img, o, chunk)[..e] == data[..e];
  }

  /** The four frames of a 784-byte image, sent once each, rebuild it exactly. */
  lemma ImageReassembles(data: seq<byte>, tail: seq<byte>)
    requires |data| == IMG_BYTES
    ensures ImageFromStream(Stream(data, 0) + tail)
         == ImageRx(true, data, Trues(IMG_BYTES), IMG_BYTES, tail, [ACK_OK, ACK_OK, ACK_OK, ACK_OK])
  {
    ImageOffsets();
    FramesReassemble(data, 0, Zeros(IMG_BYTES), Falses(IMG_BYTES), tail);
  }

  // ---------------------------------------------------------------------
  // The firmware's state and its procedures

  /**
    The receiver's buffers (`img`, the static `got_map`, `got_count`) and the
    UART: `input` holds the bytes still to arrive, `output` the bytes sent.
  */
  class Receiver {
    const img: array<byte>
    const gotMap: array<bool>
    var gotCount: int
    var input: seq<byte>
    var output: seq<byte>

    ghost predicate Valid()
    {
      && img.Length == IMG_BYTES && gotMap.Length == IMG_BYTES
      && img as object != gotMap as object
    }

    constructor (stream: seq<byte>)
      ensures Valid() && fresh(img) && fresh(gotMap)
      ensures gotMap[..] == Falses(IMG_BYTES) && gotCount == 0
      ensures input == stream && output == []
    {
      img := new byte[IMG_BYTES];
      gotMap := new bool[IMG_BYTES](_ => false);
      gotCount := 0;
      input := stream;
      output := [];
    }

    /** `uart_recv_byte_blocking`; None where the firmware would wait forever. */
    method RecvByte() returns (b: Option<byte>)
      modifies this
      ensures old(input) == [] ==> b.None? && input == []
      ensures old(input) != [] ==> b == Some(old(input)[0]) && input == old(input)[1..]
      ensures output == old(output) && gotCount == old(gotCount)
    {
      if input == [] {
        b := None;
      } else {
        b := Some(input[0]);
        input := input[1..];
      }
    }

    /** `uart_send_byte`. */
    method SendByte(x: byte)
      modifies this
      ensures output == old(output) + [x]
      ensures input == old(input) && gotCount == old(gotCount)
    {
      output := output + [x];
    }

    /** The resync loop: read until a start byte has been read. */
    method Resync() returns (found: bool)
      modifies this
      ensures found == FindStart(old(input)).Some?
      ensures found ==> input == old(input)[FindStart(old(input)).value + 1..]
      ensures !found ==> input == []
      ensures output == old(output) && gotCount == old(gotCount)
    {
      ghost var used: nat := 0;
      found := false;
      while !found
        invariant used <= |old(input)| && input == old(input)[used..]
        invariant forall j :: 0 <= j < used && (!found || j < used - 1) ==> old(input)[j] != START
        invariant found ==> used >= 1 && old(input)[used - 1] == START
        invariant output == old(output) && gotCount == old(gotCount)
        decreases |input|, !found
      {
        var b := RecvByte();
        if b.None? {
          return;
        }
        used := used + 1;
        found := b.value == START;
      }
    }

    /** Read and drop `k` bytes; false when the input runs out first. */
    method Drain(k: nat) returns (ok: bool)
      modifies this
      ensures ok == (k <= |old(input)|)
      ensures input == if ok then old(input)[k..] else []
      ensures output == old(output) && gotCount == old(gotCount)
    {
      var i := 0;
      while i < k
        invariant i <= k && i <= |old(input)| && input == old(input)[i..]
        invariant output == old(output) && gotCount == old(gotCount)
      {
        var b := RecvByte();
        if b.None? {
          return false;
        }
        i := i + 1;
      }
      return true;
    }

    /**
      `recv_image_784`: clear the image and the map, then apply chunks until
      784 distinct positions have been written. `complete` is false where
      the input runs dry first (the firmware would wait there forever).
    */
    method RecvImage784(ghost recv: ImageRecv) returns (complete: bool)
      requires Valid() && IsImageFromStream(recv)
      modifies this, img, gotMap
      ensures var r := recv(old(input));
        && complete == r.complete && img[..] == r.img && gotMap[..] == r.got
        && gotCount == r.count && input == r.rest && output == old(output) + r.sent
      ensures complete ==> gotCount == IMG_BYTES && forall i :: 0 <= i < IMG_BYTES ==> gotMap[i]
    {
      ImageFromStreamCompletes(input);
      assert recv(input) == ImageFromStream(input);
      ClearBuffers();
      ghost var step := RecvStep();
      CollectAgrees(step, img[..], gotMap[..], gotCount, input);
      complete := CollectChunks(step);
    }

    /** The two `memset`s and `got_count = 0`. */
    method ClearBuffers()
      requires Valid()
      modifies this, img, gotMap
      ensures img[..] == Zeros(IMG_BYTES) && gotMap[..] == Falses(IMG_BYTES) && gotCount == 0
      ensures input == old(input) && output == old(output)
    {
      forall i | 0 <= i < IMG_BYTES {
        img[i] := 0;
      }
      forall i | 0 <= i < IMG_BYTES {
        gotMap[i] := false;
      }
      gotCount := 0;
    }

    /** The `while (got_count < IMG_BYTES)` loop. */
    method CollectChunks(ghost step: Step) returns (complete: bool)
      requires Valid() && IsRecvChunk(step)
      modifies this, img, gotMap
      ensures var r := Collect(step, old(img[..]), old(gotMap[..]), old(gotCount), old(input));
        && complete == r.complete && img[..] == r.img && gotMap[..] == r.got
        && gotCount == r.count && input == r.rest && output == old(output) + r.sent
    {
      ghost var whole := After(output, Collect(step, img[..], gotMap[..], gotCount, input));
      while gotCount < IMG_BYTES
        invariant whole == After(output, Collect(step, img[..], gotMap[..], gotCount, input))
        decreases |input|
      {
        var outcome := Turn(step, whole);
        if outcome == Starved {
          return false;
        }
      }
      assert output + [] == output;
      return true;
    }

    /**
      One turn of that loop, stated against `whole`: the replies sent so far
      followed by what the rest of the loop computes.
    */
    method Turn(ghost step: Step, ghost whole: ImageRx) returns (outcome: Outcome)
      requires Valid() && IsRecvChunk(step) && gotCount < IMG_BYTES
      requires whole == After(output, Collect(step, img[..], gotMap[..], gotCount, input))
      modifies this, img, gotMap
      ensures outcome == Starved ==> whole == ImageRx(false, img[..], gotMap[..], gotCount, input, output)
      ensures outcome != Starved ==>
        && |input| < old(|input|)
        && whole == After(output, Collect(step, img[..], gotMap[..], gotCount, input))
    {
      CollectStep(step, img[..], gotMap[..], gotCount, input, output, whole);
      outcome := RecvAndApplyChunk();
    }

    /**
      `recv_and_apply_chunk`: resync, read the header, reject a wrong type
      at once, read and drop a frame with a bad length, otherwise paint the
      payload and answer according to the checksum.
    */
    method RecvAndApplyChunk() returns (outcome: Outcome)
      requires Valid()
      modifies this, img, gotMap
      ensures var r := RecvChunk(old(img[..]), old(gotMap[..]), old(gotCount), old(input));
        && outcome == r.outcome && img[..] == r.img && gotMap[..] == r.got
        && gotCount == r.count && input == r.rest && output == old(output) + r.sent
    {
      var found := Resync();
      if !found {
        return Starved;
      }
      outcome := RecvFrame();
    }

    /** The rest of `recv_and_apply_chunk` once the start byte has been read. */
    method RecvFrame() returns (outcome: Outcome)
      requires Valid()
      modifies this, img, gotMap
      ensures var r := AfterStart(old(img[..]), old(gotMap[..]), old(gotCount), old(input));
        && outcome == r.outcome && img[..] == r.img && gotMap[..] == r.got
        && gotCount == r.count && input == r.rest && output == old(output) + r.sent
    {
      ghost var h := input;
      var header := RecvHeader();
      if header.None? {
        AfterStartCases(img[..], gotMap[..], gotCount, h);
        return Starved;
      }
      assert h == header.value + input;
      outcome := CheckHeader(header.value);
    }

    /** The type and length checks on a received header, then the payload. */
    method CheckHeader(header: seq<byte>) returns (outcome: Outcome)
      requires Valid() && |header| == 4
      modifies this, img, gotMap
      ensures var r := AfterStart(old(img[..]), old(gotMap[..]), old(gotCount), header + old(input));
        && outcome == r.outcome && img[..] == r.img && gotMap[..] == r.got
        && gotCount == r.count && input == r.rest && output == old(output) + r.sent
    {
      ghost var h := header + input;
      AfterStartCases(img[..], gotMap[..], gotCount, h);
      assert h[..4] == header && h[4..] == input;
      var typ, offLo, offHi, len := header[0], header[1], header[2], header[3];
      var offset := U16(offLo, offHi);
      if typ != TYPE_DATA {
        SendByte(ACK_BAD);
        return Rejected;
      }
      var n := Value(len);
      if n == 0 || offset + n > IMG_BYTES {
        outcome := DropFrame(n);
        return;
      }
      outcome := PaintPayload(header, offset, n);
    }

    /**
      The bad-length path: read and drop the `n` payload bytes and the
      checksum byte, then answer ACK_BAD.
    */
    method DropFrame(n: nat) returns (outcome: Outcome)
      modifies this
      ensures n + 1 <= |old(input)| ==>
        outcome == Rejected && input == old(input)[n + 1..] && output == old(output) + [ACK_BAD]
      ensures n + 1 > |old(input)| ==> outcome == Starved && input == [] && output == old(output)
      ensures gotCount == old(gotCount)
    {
      var drained := Drain(n);
      if !drained {
        return Starved;
      }
      var chkRx := RecvByte();
      if chkRx.None? {
        return Starved;
      }
      SendByte(ACK_BAD);
      return Rejected;
    }

    /** The four header bytes: type, offset low, offset high, length. */
    method RecvHeader() returns (header: Option<seq<byte>>)
      modifies this
      ensures |old(input)| < 4 ==> header.None? && input == []
      ensures |old(input)| >= 4 ==> header == Some(old(input)[..4]) && input == old(input)[4..]
      ensures output == old(output) && gotCount == old(gotCount)
    {
      var typ := RecvByte();
      if typ.None? {
        return None;
      }
      var offLo := RecvByte();
      if offLo.None? {
        return None;
      }
      var offHi := RecvByte();
      if offHi.None? {
        return None;
      }
      var len := RecvByte();
      if len.None? {
        return None;
      }
      assert old(input)[..4] == [typ.value, offLo.value, offHi.value, len.value];
      return Some([typ.value, offLo.value, offHi.value, len.value]);
    }

    /** One turn of the payload loop: mark `idx` as written, counting it if new, and store `v`. */
    method PaintByte(idx: nat, v: byte)
      requires Valid() && idx < IMG_BYTES
      modifies this, img, gotMap
      ensures img[..] == old(img[..])[idx := v]
      ensures gotMap[..] == old(gotMap[..])[idx := true]
      ensures gotCount == old(gotCount) + (if old(gotMap[idx]) then 0 else 1)
      ensures input == old(input) && output == old(output)
    {
      if !gotMap[idx] {
        gotMap[idx] := true;
        gotCount := gotCount + 1;
      } else {
        assert gotMap[..] == gotMap[..][idx := true];
      }
      ghost var marked := gotMap[..];
      img[idx] := v;
      assert gotMap[..] == marked;
    }

    /**
      The payload loop and checksum test of `recv_and_apply_chunk`, for a
      header that passed both checks.
    */
    method PaintPayload(header: seq<byte>, offset: nat, n: nat) returns (outcome: Outcome)
      requires Valid() && |header| == 4 && offset + n <= IMG_BYTES
      modifies this, img, gotMap
      ensures var r := ApplyPayload(old(img[..]), old(gotMap[..]), old(gotCount), header, offset, n, old(input));
        && outcome == r.outcome && img[..] == r.img && gotMap[..] == r.got
        && gotCount == r.count && input == r.rest && output == old(output) + r.sent
    {
      var chk: byte := 0;
      chk := chk ^ header[0];
      chk := chk ^ header[1];
      chk := chk ^ header[2];
      chk := chk ^ header[3];
      HeaderChecksum(header);
      var complete;
      chk, complete := PaintLoop(header, chk, offset, n);
      if !complete {
        return Starved;
      }
      var rx := RecvByte();
      if rx.None? {
        return Starved;
      }
      if rx.value != chk {
        SendByte(ACK_BAD);
        return Rejected;
      }
      SendByte(ACK_OK);
      return Accepted;
    }

    /**
      The `for (i = 0; i < len; i++)` loop: each byte is folded into the
      checksum, marked and stored at `offset + i`; `complete` is false when
      the input runs out first.
    */
    method PaintLoop(header: seq<byte>, chk0: byte, offset: nat, n: nat) returns (chk: byte, complete: bool)
      requires Valid() && offset + n <= IMG_BYTES && chk0 == XorFold(header)
      modifies this, img, gotMap
      ensures complete == (n <= |old(input)|)
      ensures var p := if complete then n else |old(input)|;
        && img[..] == Overwrite(old(img[..]), offset, old(input)[..p])
        && gotMap[..] == Overwrite(old(gotMap[..]), offset, Trues(p))
        && gotCount == old(gotCount) + CountFalse(old(gotMap[..])[offset..offset + p])
        && input == old(input)[p..]
      ensures complete ==> chk == XorFold(header + old(input)[..n])
      ensures output == old(output)
    {
      chk := chk0;
      ghost var body, img0, got0 := input, img[..], gotMap[..];
      assert header + body[..0] == header;
      var i := 0;
      while i < n
        invariant i <= n && i <= |body| && input == body[i..]
        invariant img[..] == Overwrite(img0, offset, body[..i])
        invariant gotMap[..] == Overwrite(got0, offset, Trues(i))
        invariant gotCount == old(gotCount) + CountFalse(got0[offset..offset + i])
        invariant chk == XorFold(header + body[..i])
        invariant output == old(output)
      {
        var v := RecvByte();
        if v.None? {
          assert i == |body| && body[..i] == body;
          return chk, false;
        }
        PaintStep(header, body, img0, got0, offset, i);
        chk := chk ^ v.value;
        PaintByte(offset + i, v.value);
        i := i + 1;
      }
      return chk, true;
    }
  }

  lemma {:induction false} HeaderChecksum(header: seq<byte>)
    requires |header| == 4
    ensures XorFold(header) == 0 ^ header[0] ^ header[1] ^ header[2] ^ header[3]
  {
    assert header[..0] == [] && header[..4] == header;
    XorFoldPrefix(header, 0);
    XorFoldPrefix(header, 1);
    XorFoldPrefix(header, 2);
    XorFoldPrefix(header, 3);
  }

  lemma {:induction false} XorFoldPrefix(s: seq<byte>, k: nat)
    requires k < |s|
    ensures XorFold(s[..k + 1]) == XorFold(s[..k]) ^ s[k]
  {
    assert s[..k + 1][..k] == s[..k];
  }

  /** Writing one more element at the end of an overwritten stretch. */
  lemma {:induction false} OverwriteStep<T>(s: seq<T>, at: nat, v: seq<T>, x: T)
    requires at + |v| < |s|
    ensures Overwrite(s, at, v)[at + |v|] == s[at + |v|]
    ensures Overwrite(s, at, v)[at + |v| := x] == Overwrite(s, at, v + [x])
  {
  }

  /** The facts one turn of the payload loop needs about the next byte. */
  lemma {:induction false} PaintStep(header: seq<byte>, body: seq<byte>, img: seq<byte>, got: seq<bool>,
                                     offset: nat, i: nat)
    requires i < |body| && offset + i < |got| && offset + i < |img|
    ensures XorFold(header + body[..i + 1]) == XorFold(header + body[..i]) ^ body[i]
    ensures CountFalse(got[offset..offset + i + 1])
         == CountFalse(got[offset..offset + i]) + (if got[offset + i] then 0 else 1)
    ensures Overwrite(img, offset, body[..i])[offset + i := body[i]] == Overwrite(img, offset, body[..i + 1])
    ensures Overwrite(got, offset, Trues(i))[offset + i] == got[offset + i]
    ensures Overwrite(got, offset, Trues(i))[offset + i := true] == Overwrite(got, offset, Trues(i + 1))
  {
    assert (header + body[..i + 1])[..|header + body[..i + 1]| - 1] == header + body[..i];
    assert got[offset..offset + i + 1][..i] == got[offset..offset + i];
    OverwriteStep(img, offset, body[..i], body[i]);
    OverwriteStep(got, offset, Trues(i), true);
    assert body[..i] + [body[i]] == body[..i + 1];
    assert Trues(i) + [true] == Trues(i + 1);
  }
}
