/**
  `send_image_uart` of digit_fpga_nn/data/sendToNN.py and the checks its
  single-pixel commands make before calling it. The MNIST loaders of the
  same file are modelled in module Idx.
*/
module SendToNN {
  import opened Bytes
  import opened Wrappers
  import opened Text
  import opened LooseLink

  /** What the reply loop makes of one stripped line. */
  datatype LineKind =
    | PredLine(value: int)   // "PRED:" and a field `int()` accepts: the wait ends
    | BadPredLine            // "PRED:" and a field `int()` rejects: caught, the wait goes on
    | DebugLine              // "HW:..." or "SW...": echoed only
    | OtherLine

  /** `line.split(':')[1]` on a line that starts with "PRED:": the text up to the next ':'. */
  function PredField(line: string): (field: string)
    requires "PRED:" <= line
    ensures field == Split(line[5..], ':')[0]
  {
    assert line == "PRED" + [':'] + line[5..];
    SplitAfterPiece("PRED", ':', line[5..]);
    Split(line, ':')[1]
  }

  function Classify(line: string): LineKind
  {
    if "PRED:" <= line then
      match ParseInt(PredField(line))
      case Some(v) => PredLine(v)
      case None => BadPredLine
    else if "HW:" <= line || "SW" <= line then DebugLine
    else OtherLine
  }

  /** `prediction` is what the first PRED line with a number says, or None when no line does. */
  predicate FirstPredictionIs(lines: seq<string>, prediction: Option<int>)
  {
    match prediction
    case None => forall j :: 0 <= j < |lines| ==> !Classify(Strip(lines[j])).PredLine?
    case Some(v) =>
      exists i :: 0 <= i < |lines| && Classify(Strip(lines[i])) == PredLine(v)
        && forall j :: 0 <= j < i ==> !Classify(Strip(lines[j])).PredLine?
  }

  /** The reply loop of `send_image_uart`: read stripped lines until a PRED line parses. */
  method AwaitPrediction(lines: seq<string>) returns (prediction: Option<int>, used: nat)
    ensures FirstPredictionIs(lines, prediction)
    ensures used <= |lines|
    ensures prediction.Some? ==> used >= 1 && Classify(Strip(lines[used - 1])) == PredLine(prediction.value)
  {
    used := 0;
    while used < |lines|
      invariant used <= |lines|
      invariant forall j :: 0 <= j < used ==> !Classify(Strip(lines[j])).PredLine?
    {
      var kind := Classify(Strip(lines[used]));
      used := used + 1;
      // a BadPredLine is int() raising ValueError: the handler prints it and the loop goes on
      if kind.PredLine? {
        prediction := Some(kind.value);
        assert 0 <= used - 1 < |lines| && Classify(Strip(lines[used - 1])) == PredLine(kind.value);
        return;
      }
    }
    prediction := None;
  }

  /**
    `send_image_uart(ser, image)`: nothing is written unless READY arrives;
    then the image goes out in 32-byte slices and the first PRED line with
    a number is the result.
  */
  method SendImageUart(image: seq<byte>, pieces: seq<string>, lines: seq<string>)
    returns (prediction: Option<int>, writes: seq<seq<byte>>)
    ensures !Contains(Concat(pieces), READY) ==> prediction == None && writes == []
    ensures Contains(Concat(pieces), READY) ==>
      && writes == Slices(image, SLICE_COUNT)
      && FirstPredictionIs(lines, prediction)
  {
    var ready, readsUsed := WaitForReady(pieces);
    if !ready {
      return None, [];
    }
    var sent;
    writes, sent := SendSlices(image);
    var linesUsed;
    prediction, linesUsed := AwaitPrediction(lines);
  }

  /** A line the firmware would print for digit x, possibly followed by more ':'-separated text. */
  lemma PredLineReadsBack(x: int, rest: string)
    requires rest == [] || rest[0] == ':'
    ensures Classify("PRED:" + IntToString(x) + rest) == PredLine(x)
  {
    var digits := IntToString(x);
    NoColonInNumber(x);
    FieldBeforeColon(digits, rest);
    assert PredField("PRED:" + digits + rest) == digits;
    StripNoSpace(digits);
    ParseIntOfIntToString(x);
  }

  /** The decimal text of a number has no ':'. */
  lemma NoColonInNumber(x: int)
    ensures ':' !in IntToString(x)
  {
    var digits := IntToString(x);
    if x < 0 {
      assert forall i :: 1 <= i < |digits| ==> digits[i] == digits[1..][i - 1];
    }
  }

  /** The field after "PRED:" runs up to the first ':' or the end of the line. */
  lemma FieldBeforeColon(field: string, rest: string)
    requires ':' !in field && (rest == [] || rest[0] == ':')
    ensures PredField("PRED:" + field + rest) == field
  {
    var line := "PRED:" + field + rest;
    assert line[5..] == field + rest;
    if rest == [] {
      SplitNoSeparator(field, ':');
      assert field + rest == field;
    } else {
      SplitAfterPiece(field, ':', rest[1..]);
      assert field + rest == field + [':'] + rest[1..];
    }
  }

  /** Lines that begin "HW:" or "SW" never end the wait. */
  lemma DebugLinesDoNotAnswer(line: string)
    requires "HW:" <= line || "SW" <= line
    ensures Classify(line) == DebugLine
  {
    assert line[0] != 'P';
  }

  // ------------------------------------------------------ single-pixel images

  /** `max(0, min(255, val))`. */
  function Clamp(v: int): (b: byte)
    ensures v <= 0 ==> b == 0
    ensures v >= 255 ==> b == 255
    ensures 0 <= v <= 255 ==> b as int == v
  {
    if v < 0 then 0 else if v > 255 then 255 else ToByte(v)
  }

  datatype PixelError = IndexOutOfRange(idx: int)

  /** The image of the `p <index> [value]` command: one clamped pixel, zero elsewhere. */
  function SinglePixelImage(idx: int, val: int): (r: Result<seq<byte>, PixelError>)
    ensures r.Failure? <==> !(0 <= idx < INPUT_SIZE)
    ensures r.Failure? ==> r.error == IndexOutOfRange(idx)
    ensures r.Success? ==>
      && |r.value| == INPUT_SIZE && r.value[idx] == Clamp(val)
      && forall i :: 0 <= i < INPUT_SIZE && i != idx ==> r.value[i] == 0
  {
    if idx < 0 || idx >= INPUT_SIZE then Failure(IndexOutOfRange(idx))
    else Success(seq(INPUT_SIZE, i requires 0 <= i < INPUT_SIZE => if i == idx then Clamp(val) else 0))
  }

  /**
    The `p` command and `send_single_pixel_only`: a bad index is refused
    before anything is written; otherwise the "1" command, then the image,
    unless READY never arrives, when nothing follows the "1" and there is
    no prediction.
  */
  method SendSinglePixel(idx: int, val: int, pieces: seq<string>, lines: seq<string>)
    returns (prediction: Option<int>, writes: seq<seq<byte>>)
    ensures !(0 <= idx < INPUT_SIZE) ==> prediction == None && writes == []
    ensures 0 <= idx < INPUT_SIZE ==>
      && |writes| >= 1 && writes[0] == TextBytes("1")
      && (Contains(Concat(pieces), READY) ==>
            && writes[1..] == Slices(SinglePixelImage(idx, val).value, SLICE_COUNT)
            && FirstPredictionIs(lines, prediction))
    ensures 0 <= idx < INPUT_SIZE && !Contains(Concat(pieces), READY) ==>
      prediction == None && writes == [TextBytes("1")]
  {
    var image := SinglePixelImage(idx, val);
    if image.Failure? {
      return None, [];
    }
    var rest;
    prediction, rest := SendImageUart(image.value, pieces, lines);
    writes := [TextBytes("1")] + rest;
  }
}
