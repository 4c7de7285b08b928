/**
  The host side of the framed chunk protocol (vitis/mlp/send_digit_to_fpga.py):
  the XOR checksum, the frame layout
  `[0xAA][0x01][off_lo][off_hi][len][payload][xor]` and the 240-byte chunking
  of a payload.
*/
module FrameCodec {
  import opened Bytes
  import opened Wrappers
  import opened Text

  const START: byte := 0xAA
  const TYPE_DATA: byte := 0x01
  const ACK_OK: byte := 0x55
  const ACK_BAD: byte := 0xEE

  /** Largest payload the sender puts in one frame. */
  const MAX_PAYLOAD: nat := 240

  /** XOR of all bytes, folded left to right from 0. */
  function XorFold(s: seq<byte>): byte
  {
    if s == [] then 0 else XorFold(s[..|s| - 1]) ^ s[|s| - 1]
  }

  /** `xor_checksum`: the accumulator loop over the bytes. */
  method XorChecksum(data: seq<byte>) returns (c: byte)
    ensures c == XorFold(data)
  {
    c := 0;
    for i := 0 to |data|
      invariant c == XorFold(data[..i])
    {
      assert data[..i + 1][..i] == data[..i];
      c := c ^ data[i];
    }
    assert data[..|data|] == data;
  }

  lemma {:induction false} XorFoldAppend(a: seq<byte>, b: seq<byte>)
    ensures XorFold(a + b) == XorFold(a) ^ XorFold(b)
    decreases |b|
  {
    if b == [] {
      assert a + b == a;
    } else {
      var b' := b[..|b| - 1];
      assert (a + b)[..|a + b| - 1] == a + b';
      XorFoldAppend(a, b');
    }
  }

  /** Folding a body followed by its own checksum gives 0: the frame is self-verifying. */
  lemma {:induction false} ChecksumCancels(body: seq<byte>)
    ensures XorFold(body + [XorFold(body)]) == 0
  {
    XorFoldAppend(body, [XorFold(body)]);
    assert XorFold([XorFold(body)]) == XorFold([]) ^ XorFold(body) by {
      assert [XorFold(body)][..0] == [];
    }
  }

  /** Raised by Python's `bytes([...])` when the length field does not fit a byte. */
  datatype ChunkError = LengthNotAByte(length: nat)

  /** The bytes the checksum covers: type, offset low, offset high, length, payload. */
  function FrameBody(offset: nat, payload: seq<byte>): seq<byte>
    requires |payload| < 256
  {
    [TYPE_DATA, (offset % 256) as bv8, (offset / 256 % 256) as bv8, |payload| as bv8] + payload
  }

  /** `make_chunk(offset, payload)`. */
  function MakeChunk(offset: nat, payload: seq<byte>): (r: Result<seq<byte>, ChunkError>)
    ensures r.Failure? <==> |payload| > 255
    ensures r.Success? ==>
      var f := r.value;
      && |f| == 6 + |payload|
      && f[0] == START && f[1] == TYPE_DATA
      && f[2] == (offset % 256) as bv8 && f[3] == (offset / 256 % 256) as bv8
      && f[4] == |payload| as bv8
      && f[5..5 + |payload|] == payload
      && f[5 + |payload|] == XorFold(f[1..5 + |payload|])
  {
    if |payload| > 255 then Failure(LengthNotAByte(|payload|))
    else
      var f := Frame(offset, payload);
      assert f[1..5 + |payload|] == FrameBody(offset, payload);
      assert f[5..5 + |payload|] == payload;
      Success(f)
  }

  /** The frame of a chunk that fits the length byte: start byte, body, checksum. */
  function Frame(offset: nat, payload: seq<byte>): seq<byte>
    requires |payload| < 256
  {
    [START] + FrameBody(offset, payload) + [XorFold(FrameBody(offset, payload))]
  }

  /** Everything after the start byte XOR-folds to 0. */
  lemma FrameSelfChecks(offset: nat, payload: seq<byte>)
    requires |payload| < 256
    ensures Frame(offset, payload)[1..] == FrameBody(offset, payload) + [XorFold(FrameBody(offset, payload))]
    ensures XorFold(Frame(offset, payload)[1..]) == 0
  {
    ChecksumCancels(FrameBody(offset, payload));
  }

  // ---------------------------------------------------------------- chunking

  /** End of the Python slice `data[o:o+240]` on data of length n. */
  function ChunkEnd(n: nat, o: nat): nat
  {
    if o + MAX_PAYLOAD <= n then o + MAX_PAYLOAD else n
  }

  /** `data[o:o+240]`, empty when o is past the end as in Python. */
  function ChunkAt(data: seq<byte>, o: nat): (c: seq<byte>)
    ensures |c| <= MAX_PAYLOAD
    ensures o < |data| ==> |c| >= 1
  {
    if o < |data| then data[o..ChunkEnd(|data|, o)] else []
  }

  /** The chunks the sender's loop visits from offset o on, in order. */
  function ChunksFrom(data: seq<byte>, o: nat): seq<seq<byte>>
    requires o <= |data|
    decreases |data| - o
  {
    if o == |data| then [] else [ChunkAt(data, o)] + ChunksFrom(data, o + |ChunkAt(data, o)|)
  }

  /** The offsets the sender's loop visits from o on, in order, on data of length n. */
  function ChunkOffsets(n: nat, o: nat): (r: seq<nat>)
    requires o <= n
    ensures forall i :: 0 <= i < |r| ==> o <= r[i] < n
    decreases n - o
  {
    if o == n then [] else [o] + ChunkOffsets(n, ChunkEnd(n, o))
  }

  /** The offsets from o are those of the chunks from o. */
  lemma {:induction false} OffsetsMatchChunks(data: seq<byte>, o: nat)
    requires o <= |data|
    ensures var offs := ChunkOffsets(|data|, o);
      |offs| == |ChunksFrom(data, o)|
      && forall i :: 0 <= i < |offs| ==> ChunksFrom(data, o)[i] == ChunkAt(data, offs[i])
    decreases |data| - o
  {
    if o < |data| {
      var o' := o + |ChunkAt(data, o)|;
      assert o' == ChunkEnd(|data|, o);
      OffsetsMatchChunks(data, o');
    }
  }

  function ChunkCount(n: nat): nat
  {
    (n + MAX_PAYLOAD - 1) / MAX_PAYLOAD
  }

  /** Together the chunks from o are exactly data[o..]. */
  lemma {:induction false} ChunksConcat(data: seq<byte>, o: nat)
    requires o <= |data|
    ensures Concat(ChunksFrom(data, o)) == data[o..]
    decreases |data| - o
  {
    if o < |data| {
      var c := ChunkAt(data, o);
      var o' := o + |c|;
      ChunksConcat(data, o');
      ConcatCons(c, ChunksFrom(data, o'));
      assert data[o..] == c + data[o'..];
    }
  }

  /** There are ceil((|data|-o)/240) chunks from o. */
  lemma {:induction false} ChunksCount(data: seq<byte>, o: nat)
    requires o <= |data|
    ensures |ChunksFrom(data, o)| == ChunkCount(|data| - o)
    decreases |data| - o
  {
    if o < |data| {
      ChunksCount(data, o + |ChunkAt(data, o)|);
    }
  }

  /** Chunk i from o starts at o + 240*i and holds 1 to 240 bytes. */
  lemma {:induction false} ChunksShape(data: seq<byte>, o: nat, i: nat)
    requires o <= |data|
    requires i < |ChunksFrom(data, o)|
    ensures o + MAX_PAYLOAD * i < |data|
    ensures ChunksFrom(data, o)[i] == data[o + MAX_PAYLOAD * i..ChunkEnd(|data|, o + MAX_PAYLOAD * i)]
    ensures 1 <= |ChunksFrom(data, o)[i]| <= MAX_PAYLOAD
    decreases |data| - o
  {
    var c := ChunkAt(data, o);
    if i > 0 {
      var o' := o + |c|;
      assert ChunksFrom(data, o)[i] == ChunksFrom(data, o')[i - 1];
      ChunksShape(data, o', i - 1);
      assert o' == o + MAX_PAYLOAD;
      assert o' + MAX_PAYLOAD * (i - 1) == o + MAX_PAYLOAD * i;
    }
  }

  /** For the 784-byte image: four chunks at 0, 240, 480, 720 of 240, 240, 240 and 64 bytes. */
  lemma ImageChunks(data: seq<byte>)
    requires |data| == 784
    ensures var cs := ChunksFrom(data, 0);
      && |cs| == 4
      && cs[0] == data[0..240] && cs[1] == data[240..480]
      && cs[2] == data[480..720] && cs[3] == data[720..784]
      && |cs[3]| == 64
  {
    ChunksCount(data, 0);
    ChunksShape(data, 0, 0);
    ChunksShape(data, 0, 1);
    ChunksShape(data, 0, 2);
    ChunksShape(data, 0, 3);
  }

  /** For the 784-byte image the sender visits offsets 0, 240, 480 and 720. */
  lemma ImageOffsets()
    ensures ChunkOffsets(784, 0) == [0, 240, 480, 720]
  {
    assert ChunkOffsets(784, 720) == [720];
    assert ChunkOffsets(784, 480) == [480, 720];
    assert ChunkOffsets(784, 240) == [240, 480, 720];
  }
}
