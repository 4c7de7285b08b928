/**
  The older "loose" serial protocol the two test scripts speak
  (digit_fpga_nn/data/sendToNN.py and vitis/mlp/handwritten_testing/batch_send.py):
  wait until the text received so far contains "READY", write the 784 image
  bytes as raw 32-byte slices, then read reply lines.

  The serial port is a script. `pieces` are the pieces of decoded text the
  readiness loop receives before its deadline, one per read; the reply
  phase sees `lines`, the stripped lines read before its deadline.
*/
module LooseLink {
  import opened Bytes
  import opened Text

  const INPUT_SIZE: nat := 784
  const CHUNK_SIZE: nat := 32
  const READY: string := "READY"

  /** READY shows up in the text of the first `k` pieces and not before the k-th. */
  predicate ReadyAfter(pieces: seq<string>, k: nat)
    requires k <= |pieces|
  {
    && k >= 1
    && Contains(Concat(pieces[..k]), READY)
    && !Contains(Concat(pieces[..k - 1]), READY)
  }

  /** Text received later cannot take READY away. */
  lemma ReadyStays(pieces: seq<string>, k: nat)
    requires k <= |pieces| && Contains(Concat(pieces[..k]), READY)
    ensures Contains(Concat(pieces), READY)
  {
    ConcatSplit(pieces, k);
    ContainsExtend(Concat(pieces[..k]), Concat(pieces[k..]), READY);
  }

  /**
    `wait_for_ready_silent` (and the first loop of `send_image_uart`): add
    each read to the buffer and stop as soon as the buffer contains READY,
    also when the word arrives split over several reads.
  */
  method WaitForReady(pieces: seq<string>) returns (ready: bool, used: nat)
    ensures used <= |pieces|
    ensures ready <==> Contains(Concat(pieces), READY)
    ensures ready ==> ReadyAfter(pieces, used)
    ensures !ready ==> used == |pieces|
  {
    var buf := "";
    used := 0;
    while used < |pieces|
      invariant used <= |pieces|
      invariant buf == Concat(pieces[..used])
      invariant !Contains(buf, READY)
    {
      buf := buf + pieces[used];
      used := used + 1;
      assert pieces[..used][..used - 1] == pieces[..used - 1];
      if Contains(buf, READY) {
        ReadyStays(pieces, used);
        return true, used;
      }
    }
    assert pieces[..used] == pieces;
    return false, used;
  }

  // ------------------------------------------------------------ 32-byte slices

  /** Python's `data[i:i+n]`: clamped to the end of the data, empty past it. */
  function Slice(data: seq<byte>, i: nat, n: nat): (r: seq<byte>)
    ensures |r| <= n
  {
    if i >= |data| then [] else data[i..if i + n <= |data| then i + n else |data|]
  }

  function Min(a: nat, b: nat): nat
  {
    if a <= b then a else b
  }

  /** The first `k` writes of `for i in range(0, 784, 32): write(data[i:i+32])`. */
  function Slices(data: seq<byte>, k: nat): (r: seq<seq<byte>>)
    ensures |r| == k
  {
    if k == 0 then [] else Slices(data, k - 1) + [Slice(data, CHUNK_SIZE * (k - 1), CHUNK_SIZE)]
  }

  /** `range(0, 784, 32)` has 25 steps. */
  const SLICE_COUNT: nat := 25

  /** The first k slices, run together, are the first 32k bytes of the data (or all of it). */
  lemma {:induction false} SlicesArePrefix(data: seq<byte>, k: nat)
    ensures Concat(Slices(data, k)) == data[..Min(|data|, CHUNK_SIZE * k)]
  {
    if k > 0 {
      SlicesArePrefix(data, k - 1);
      var s := Slices(data, k);
      assert s[..k - 1] == Slices(data, k - 1);
    }
  }

  /**
    The writes cover the data in order without gaps or overlap: a 784-byte
    image goes out whole as 24 slices of 32 bytes and a last one of 16.
    Longer data would be cut after 800 bytes, not 784.
  */
  lemma ImageSlices(data: seq<byte>)
    ensures Concat(Slices(data, SLICE_COUNT)) == data[..Min(|data|, 800)]
    ensures |data| == INPUT_SIZE ==>
      && Concat(Slices(data, SLICE_COUNT)) == data
      && |Slices(data, SLICE_COUNT)[SLICE_COUNT - 1]| == 16
      && forall k :: 0 <= k < SLICE_COUNT - 1 ==> |Slices(data, SLICE_COUNT)[k]| == CHUNK_SIZE
  {
    SlicesArePrefix(data, SLICE_COUNT);
    if |data| == INPUT_SIZE {
      assert data[..INPUT_SIZE] == data;
      forall k | 0 <= k < SLICE_COUNT - 1
        ensures |Slices(data, SLICE_COUNT)[k]| == CHUNK_SIZE
      {
        SliceOfSlices(data, SLICE_COUNT, k);
      }
      SliceOfSlices(data, SLICE_COUNT, SLICE_COUNT - 1);
    }
  }

  lemma {:induction false} SliceOfSlices(data: seq<byte>, n: nat, k: nat)
    requires k < n
    ensures Slices(data, n)[k] == Slice(data, CHUNK_SIZE * k, CHUNK_SIZE)
  {
    if k < n - 1 {
      SliceOfSlices(data, n - 1, k);
    }
  }

  /** The sending loop: one write per 32-byte step, counting the bytes written. */
  method SendSlices(data: seq<byte>) returns (writes: seq<seq<byte>>, sent: nat)
    ensures writes == Slices(data, SLICE_COUNT)
    ensures sent == |Concat(writes)| == Min(|data|, 800)
  {
    writes := [];
    sent := 0;
    var i := 0;
    while i < INPUT_SIZE
      invariant i % CHUNK_SIZE == 0 && i <= INPUT_SIZE + CHUNK_SIZE - 1
      invariant writes == Slices(data, i / CHUNK_SIZE)
      invariant sent == Min(|data|, i)
    {
      var chunk := Slice(data, i, CHUNK_SIZE);
      writes := writes + [chunk];
      sent := sent + |chunk|;
      i := i + CHUNK_SIZE;
    }
    SlicesArePrefix(data, SLICE_COUNT);
  }
}
