/**
  vitis/mlp/handwritten_testing/batch_send.py: `pad_to_square`, which
  centres a grey image on a square of zeros, and the protocol part of
  `send_image`: the "1" command, the READY wait, the 32-byte slices and
  the wait for a "Prediction:" and a "Logits:" line.
*/
module BatchSend {
  import opened Bytes
  import opened Wrappers
  import opened Text
  import opened LooseLink

  /**
    `pad_to_square(img)`: an s x s array of zeros, s the larger side, with
    the image copied in at row (s - h) / 2 and column (s - w) / 2.
  */
  method PadToSquare(img: array2<byte>) returns (out: array2<byte>)
    ensures fresh(out)
    ensures var h, w := img.Length0, img.Length1;
      var s := if h >= w then h else w;
      var y0, x0 := (s - h) / 2, (s - w) / 2;
      && out.Length0 == s && out.Length1 == s
      && forall y, x :: 0 <= y < s && 0 <= x < s ==>
           out[y, x] == if y0 <= y < y0 + h && x0 <= x < x0 + w then img[y - y0, x - x0] else 0
    ensures img.Length0 == img.Length1 ==>
      forall y, x :: 0 <= y < img.Length0 && 0 <= x < img.Length1 ==> out[y, x] == img[y, x]
  {
    var h, w := img.Length0, img.Length1;
    var s := if h >= w then h else w;
    out := new byte[s, s]((y, x) => 0);
    var y0, x0 := (s - h) / 2, (s - w) / 2;
    for r := 0 to h
      invariant forall y, x :: 0 <= y < s && 0 <= x < s ==>
        out[y, x] == if y0 <= y < y0 + r && x0 <= x < x0 + w then img[y - y0, x - x0] else 0
    {
      for c := 0 to w
        invariant forall y, x :: 0 <= y < s && 0 <= x < s ==>
          out[y, x] == if (y0 <= y < y0 + r && x0 <= x < x0 + w) || (y == y0 + r && x0 <= x < x0 + c)
                       then img[y - y0, x - x0] else 0
      {
        out[y0 + r, x0 + c] := img[r, c];
      }
    }
  }

  // ------------------------------------------------------------- send_image

  const START_COMMAND: string := "1"
  const PREDICTION: string := "Prediction:"
  const LOGITS: string := "Logits:"

  datatype BatchOutcome =
    | NotReady                                          // "FPGA not ready.", nothing sent
    | NoPrediction                                      // no complete pair before the deadline
    | Reported(predLine: string, logitsLine: string)    // both lines, printed

  /** The last of the stripped `lines` that starts with `prefix`. */
  function LastWith(lines: seq<string>, prefix: string): (r: Option<string>)
    ensures r.Some? ==> prefix <= r.value
  {
    if lines == [] then None
    else
      var line := Strip(lines[|lines| - 1]);
      if prefix <= line then Some(line) else LastWith(lines[..|lines| - 1], prefix)
  }

  /** A line of that kind, once seen, stays seen. */
  lemma {:induction false} LastWithStays(lines: seq<string>, prefix: string, k: nat)
    requires k <= |lines| && LastWith(lines[..k], prefix).Some?
    ensures LastWith(lines, prefix).Some?
    decreases |lines|
  {
    if k < |lines| {
      var init := lines[..|lines| - 1];
      assert init[..k] == lines[..k];
      if !(prefix <= Strip(lines[|lines| - 1])) {
        LastWithStays(init, prefix, k);
      }
    } else {
      assert lines[..k] == lines;
    }
  }

  /** One more line: it replaces the last one of its kind, or changes nothing. */
  lemma LastWithStep(lines: seq<string>, k: nat, prefix: string)
    requires k < |lines|
    ensures LastWith(lines[..k + 1], prefix)
      == if prefix <= Strip(lines[k]) then Some(Strip(lines[k])) else LastWith(lines[..k], prefix)
  {
    assert lines[..k + 1][..k] == lines[..k];
  }

  /** No line is of both kinds. */
  lemma KindsExclusive(line: string)
    ensures !(PREDICTION <= line && LOGITS <= line)
  {
    if PREDICTION <= line {
      assert line[0] == 'P';
    }
  }

  predicate BothSeen(lines: seq<string>)
  {
    LastWith(lines, PREDICTION).Some? && LastWith(lines, LOGITS).Some?
  }

  /**
    The response loop: keep the latest "Prediction:" and the latest
    "Logits:" line and stop once both are there, whichever came first.
  */
  method AwaitPair(lines: seq<string>) returns (outcome: BatchOutcome, used: nat)
    ensures outcome != NotReady && used <= |lines|
    ensures outcome.Reported? <==> BothSeen(lines)
    ensures outcome.Reported? ==>
      && used >= 1
      && LastWith(lines[..used], PREDICTION) == Some(outcome.predLine)
      && LastWith(lines[..used], LOGITS) == Some(outcome.logitsLine)
      && !BothSeen(lines[..used - 1])
  {
    var predLine: Option<string> := None;
    var logitsLine: Option<string> := None;
    used := 0;
    while used < |lines| && !(predLine.Some? && logitsLine.Some?)
      invariant used <= |lines|
      invariant predLine == LastWith(lines[..used], PREDICTION)
      invariant logitsLine == LastWith(lines[..used], LOGITS)
      invariant used >= 1 ==> !BothSeen(lines[..used - 1])
    {
      var line := Strip(lines[used]);
      if PREDICTION <= line {
        predLine := Some(line);
      } else if LOGITS <= line {
        logitsLine := Some(line);
      }
      LastWithStep(lines, used, PREDICTION);
      LastWithStep(lines, used, LOGITS);
      KindsExclusive(line);
      used := used + 1;
    }
    if predLine.Some? && logitsLine.Some? {
      LastWithStays(lines, PREDICTION, used);
      LastWithStays(lines, LOGITS, used);
      outcome := Reported(predLine.value, logitsLine.value);
    } else {
      assert lines[..used] == lines;
      outcome := NoPrediction;
    }
  }

  /**
    `send_image` after preprocessing: the "1" command always goes out; the
    image follows only when READY arrives, and then the reply pair decides.
  */
  method SendImage(image: seq<byte>, pieces: seq<string>, lines: seq<string>)
    returns (outcome: BatchOutcome, writes: seq<seq<byte>>)
    ensures |writes| >= 1 && writes[0] == TextBytes(START_COMMAND)
    ensures !Contains(Concat(pieces), READY) ==> outcome == NotReady && writes == [TextBytes(START_COMMAND)]
    ensures Contains(Concat(pieces), READY) ==>
      && writes[1..] == Slices(image, SLICE_COUNT)
      && outcome != NotReady
      && (outcome.Reported? <==> BothSeen(lines))
  {
    writes := [TextBytes(START_COMMAND)];
    var ready, readsUsed := WaitForReady(pieces);
    if !ready {
      return NotReady, writes;
    }
    var slices, sent := SendSlices(image);
    writes := writes + slices;
    var linesUsed;
    outcome, linesUsed := AwaitPair(lines);
  }
}
