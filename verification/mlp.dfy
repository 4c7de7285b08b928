/**
  The firmware's integer network, `mlp_predict_u8` in vitis/mlp/mlp.c: a
  784 -> 32 -> 10 perceptron over a 28x28 image of unsigned bytes, int8
  weights and int32 biases, ReLU on the hidden layer, an 8-bit arithmetic
  right shift between the layers and an argmax that keeps the first maximum.
  The weight headers are not part of this model: the weights are a parameter.
*/
module Mlp {
  import opened Bytes

  const PIXELS: nat := 784
  const HIDDEN: nat := 32
  const OUT: nat := 10
  /** The `SHIFT` applied to hidden activations before layer 2. */
  const SHIFT: nat := 8

  /** `w1[32][784]`, `b1[32]`, `w2[10][32]`, `b2[10]`. */
  datatype Weights = Weights(w1: seq<seq<int>>, b1: seq<int>, w2: seq<seq<int>>, b2: seq<int>)

  predicate WellShaped(w: Weights)
  {
    && |w.w1| == HIDDEN && |w.b1| == HIDDEN && |w.w2| == OUT && |w.b2| == OUT
    && (forall j :: 0 <= j < HIDDEN ==> |w.w1[j]| == PIXELS)
    && (forall k :: 0 <= k < OUT ==> |w.w2[k]| == HIDDEN)
  }

  predicate IsInt8(x: int) { -128 <= x < 128 }

  predicate IsInt32(x: int) { -0x8000_0000 <= x < 0x8000_0000 }

  /** Every layer-1 weight fits an `int8_t`. */
  predicate Layer1Int8(w: Weights)
    requires WellShaped(w)
  {
    forall j, i :: 0 <= j < HIDDEN && 0 <= i < PIXELS ==> IsInt8(w.w1[j][i])
  }

  /** `relu_i32`. */
  function Relu(x: int): (r: int)
    ensures r >= 0 && r >= x
    ensures r == x || r == 0
  {
    if x > 0 then x else 0
  }

  /** A pixel as layer 1 sees it, `(int32_t)img[i] - 128`. */
  function Centered(p: byte): (x: int)
    ensures -128 <= x < 128 && x + 128 == p as int
  {
    p as int - 128
  }

  function Pow2(s: nat): (p: nat)
    ensures p >= 1
  {
    if s == 0 then 1 else 2 * Pow2(s - 1)
  }

  /**
    `x >> s` on a signed value, as an arithmetic shift: division by 2^s
    rounding towards minus infinity (Dafny's `/` with a positive divisor).
  */
  function Asr(x: int, s: nat): int
  {
    x / Pow2(s)
  }

  /** The first `n` terms of layer 1's sum for one hidden unit. */
  function Dot1(row: seq<int>, img: seq<byte>, n: nat): int
    requires n <= |row| && n <= |img|
  {
    if n == 0 then 0 else Dot1(row, img, n - 1) + row[n - 1] * Centered(img[n - 1])
  }

  /** `h[j]`: a hidden activation. */
  function HiddenUnit(w: Weights, img: seq<byte>, j: nat): (h: int)
    requires WellShaped(w) && |img| == PIXELS && j < HIDDEN
    ensures h >= 0
    ensures h == 0 || h == w.b1[j] + Dot1(w.w1[j], img, PIXELS)
    ensures h >= w.b1[j] + Dot1(w.w1[j], img, PIXELS)
  {
    Relu(w.b1[j] + Dot1(w.w1[j], img, PIXELS))
  }

  function HiddenLayer(w: Weights, img: seq<byte>): (h: seq<int>)
    requires WellShaped(w) && |img| == PIXELS
    ensures |h| == HIDDEN && forall j :: 0 <= j < HIDDEN ==> h[j] >= 0
  {
    seq(HIDDEN, j requires 0 <= j < HIDDEN => HiddenUnit(w, img, j))
  }

  /** The first `n` terms of layer 2's sum for one output. */
  function Dot2(row: seq<int>, h: seq<int>, n: nat): int
    requires n <= |row| && n <= |h|
  {
    if n == 0 then 0 else Dot2(row, h, n - 1) + row[n - 1] * Asr(h[n - 1], SHIFT)
  }

  /** The ten output scores of the network on `img`. */
  function Logits(w: Weights, img: seq<byte>): (ls: seq<int>)
    requires WellShaped(w) && |img| == PIXELS
    ensures |ls| == OUT
  {
    var h := HiddenLayer(w, img);
    seq(OUT, k requires 0 <= k < OUT => w.b2[k] + Dot2(w.w2[k], h, HIDDEN))
  }

  /** `k` indexes a largest score, and no earlier score is as large. */
  predicate IsFirstMax(ls: seq<int>, k: int)
  {
    && 0 <= k < |ls|
    && (forall i :: 0 <= i < |ls| ==> ls[i] <= ls[k])
    && (forall i :: 0 <= i < k ==> ls[i] < ls[k])
  }

  /** The tie rule singles out one index: the prediction is a function of the scores. */
  lemma FirstMaxUnique(ls: seq<int>, k1: int, k2: int)
    requires IsFirstMax(ls, k1) && IsFirstMax(ls, k2)
    ensures k1 == k2
  {
    assert ls[k1] <= ls[k2] && ls[k2] <= ls[k1];
  }

  /**
    The first maximum of a non-empty score list, scanning from the end: the
    last score wins only when it beats the first maximum of the others.
  */
  function FirstMax(ls: seq<int>): (k: nat)
    requires ls != []
    ensures IsFirstMax(ls, k)
  {
    if |ls| == 1 then 0
    else
      var init := ls[..|ls| - 1];
      var k0 := FirstMax(init);
      assert forall i :: 0 <= i < |init| ==> ls[i] == init[i];
      if ls[|ls| - 1] > ls[k0] then |ls| - 1 else k0
  }

  /** `mlp_predict_u8`: the digit whose score is the first maximum. */
  method Predict(w: Weights, img: array<byte>) returns (digit: int)
    requires WellShaped(w) && img.Length == PIXELS
    ensures 0 <= digit < OUT
    ensures IsFirstMax(Logits(w, img[..]), digit)
    ensures digit == FirstMax(Logits(w, img[..]))
  {
    var h := HiddenActivations(w, img);
    ghost var ls := Logits(w, img[..]);
    var bestVal := 0;
    var bestIdx := 0;
    for k := 0 to OUT
      invariant h[..] == HiddenLayer(w, img[..])
      invariant 0 <= bestIdx < OUT && (k > 0 ==> bestIdx < k && bestVal == ls[bestIdx])
      invariant forall i :: 0 <= i < k ==> ls[i] <= bestVal
      invariant forall i :: 0 <= i < bestIdx ==> ls[i] < bestVal
    {
      var acc := OutputScore(w, h, k);
      if k == 0 || acc > bestVal {
        bestVal := acc;
        bestIdx := k;
      }
    }
    FirstMaxUnique(ls, bestIdx, FirstMax(ls));
    return bestIdx;
  }

  /** Layer 1: `h[j] = relu_i32(b1[j] + sum of w1[j][i] * (img[i] - 128))`. */
  method HiddenActivations(w: Weights, img: array<byte>) returns (h: array<int>)
    requires WellShaped(w) && img.Length == PIXELS
    ensures fresh(h) && h[..] == HiddenLayer(w, img[..])
  {
    h := new int[HIDDEN];
    for j := 0 to HIDDEN
      invariant forall jj :: 0 <= jj < j ==> h[jj] == HiddenUnit(w, img[..], jj)
    {
      var acc := w.b1[j];
      for i := 0 to PIXELS
        invariant acc == w.b1[j] + Dot1(w.w1[j], img[..], i)
      {
        var x := img[i] as int - 128;
        acc := acc + w.w1[j][i] * x;
      }
      h[j] := Relu(acc);
    }
  }

  /** Layer 2 for output `k`: `b2[k] + sum of w2[k][j] * (h[j] >> SHIFT)`. */
  method OutputScore(w: Weights, h: array<int>, k: nat) returns (acc: int)
    requires WellShaped(w) && h.Length == HIDDEN && k < OUT
    ensures acc == w.b2[k] + Dot2(w.w2[k], h[..], HIDDEN)
  {
    acc := w.b2[k];
    for j := 0 to HIDDEN
      invariant acc == w.b2[k] + Dot2(w.w2[k], h[..], j)
    {
      var hj := Asr(h[j], SHIFT);
      acc := acc + w.w2[k][j] * hj;
    }
  }

  /** On the non-negative activations the shift is a division by 256 rounding down. */
  lemma ShiftIsFloor(x: int)
    requires x >= 0
    ensures var q := Asr(x, SHIFT); q >= 0 && 256 * q <= x < 256 * q + 256
  {
    assert Pow2(SHIFT) == 256 by {
      assert Pow2(2) == 4;
      assert Pow2(4) == 16;
    }
  }

  /** One layer-1 product of an int8 weight and a centred pixel. */
  lemma ProductBound(a: int, b: int)
    requires IsInt8(a) && IsInt8(b)
    ensures -16384 <= a * b <= 16384
  {
    var x: nat := if a < 0 then -a else a;
    var y: nat := if b < 0 then -b else b;
    ScaledBelow(x, y);
    assert a * b == x * y || a * b == -(x * y);
  }

  lemma {:induction false} ScaledBelow(x: nat, y: nat)
    requires y <= 128
    ensures x * y <= 128 * x
    decreases x
  {
    if x > 0 {
      ScaledBelow(x - 1, y);
      assert x * y == (x - 1) * y + y;
    }
  }

  /** A prefix of layer 1's sum stays within n * 128 * 128 of zero. */
  lemma {:induction false} Dot1Bound(row: seq<int>, img: seq<byte>, n: nat)
    requires n <= |row| && n <= |img|
    requires forall i :: 0 <= i < n ==> IsInt8(row[i])
    ensures -16384 * n <= Dot1(row, img, n) <= 16384 * n
  {
    if n > 0 {
      Dot1Bound(row, img, n - 1);
      ProductBound(row[n - 1], Centered(img[n - 1]));
    }
  }

  /**
    With int8 weights, a bias at least 784 * 128 * 128 away from the int32
    limits keeps every partial sum of layer 1 inside int32, so the C
    accumulator never overflows there and the unbounded sum is its value.
  */
  lemma Layer1FitsInt32(w: Weights, img: seq<byte>, j: nat, i: nat)
    requires WellShaped(w) && Layer1Int8(w) && |img| == PIXELS && j < HIDDEN && i <= PIXELS
    requires -0x8000_0000 + 16384 * PIXELS <= w.b1[j] < 0x8000_0000 - 16384 * PIXELS
    ensures IsInt32(w.b1[j] + Dot1(w.w1[j], img, i))
  {
    Dot1Bound(w.w1[j], img, i);
  }
}
