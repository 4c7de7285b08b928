/**
  The MNIST IDX readers of digit_fpga_nn/training/load_mnist.py, repeated
  as `load_mnist_images` / `load_mnist_labels` in digit_fpga_nn/data/sendToNN.py.

  A file is a byte sequence. Each header field is `int.from_bytes(f.read(4),
  "big")`: a read near the end of the file returns fewer than four bytes (an
  empty read gives 0), and the pixel or label bytes are whatever follows the
  header. `reshape(n, r, c)` fails unless exactly n * r * c bytes follow.
*/
module Idx {
  import opened Bytes
  import opened Wrappers
  import opened Text

  const IMAGES_MAGIC: nat := 2051
  const LABELS_MAGIC: nat := 2049

  function Pow256(k: nat): (p: nat)
    ensures p >= 1
  {
    if k == 0 then 1 else 256 * Pow256(k - 1)
  }

  /** `int.from_bytes(bs, "big")`. */
  function BigEndian(bs: seq<byte>): (v: nat)
    ensures v < Pow256(|bs|)
  {
    if bs == [] then 0
    else
      var init := bs[..|bs| - 1];
      BigEndian(init) * 256 + bs[|bs| - 1] as nat
  }

  /** The k-byte big-endian encoding of x, modulo 256^k. */
  function ToBigEndian(x: nat, k: nat): (bs: seq<byte>)
    ensures |bs| == k
  {
    if k == 0 then [] else ToBigEndian(x / 256, k - 1) + [ToByte(x % 256)]
  }

  lemma {:induction false} BigEndianRoundTrip(x: nat, k: nat)
    requires x < Pow256(k)
    ensures BigEndian(ToBigEndian(x, k)) == x
  {
    if k > 0 {
      var bs := ToBigEndian(x, k);
      BigEndianRoundTrip(x / 256, k - 1);
      assert bs[..k - 1] == ToBigEndian(x / 256, k - 1);
    }
  }

  /** `f.read(4)` at position `at`: up to four bytes, fewer near the end. */
  function Read4(file: seq<byte>, at: nat): (bs: seq<byte>)
    ensures |bs| <= 4
  {
    if at >= |file| then [] else file[at..if at + 4 <= |file| then at + 4 else |file|]
  }

  /** The header field at `at`. */
  function Field(file: seq<byte>, at: nat): nat
  {
    BigEndian(Read4(file, at))
  }

  /** `f.read()` after `at` bytes were consumed. */
  function After(file: seq<byte>, at: nat): seq<byte>
  {
    if at >= |file| then [] else file[at..]
  }

  // ------------------------------------------------------------------ reshape

  /** `count` consecutive pieces of `m` elements each: the outer step of a reshape. */
  function Chop<T>(s: seq<T>, m: nat, count: nat): (parts: seq<seq<T>>)
    requires |s| == m * count
    ensures |parts| == count && forall i :: 0 <= i < count ==> |parts[i]| == m
    decreases count
  {
    if count == 0 then [] else [s[..m]] + Chop(s[m..], m, count - 1)
  }

  /** Element j of piece k is element k * m + j of the whole: the row-major layout. */
  lemma {:induction false} ChopIndex<T>(s: seq<T>, m: nat, count: nat, k: nat, j: nat)
    requires |s| == m * count && k < count && j < m
    ensures k * m + j < |s| && Chop(s, m, count)[k][j] == s[k * m + j]
    decreases count
  {
    if k > 0 {
      MulStep(m, count - 1);
      ChopIndex(s[m..], m, count - 1, k - 1, j);
      ChopTail(s, m, count, k);
      var p := (k - 1) * m + j;
      MulStep(m, k - 1);
      assert p + m == k * m + j;
      assert s[m..][p] == s[p + m];
    } else {
      assert Chop(s, m, count)[0] == s[..m];
    }
  }

  /** Piece k > 0 is piece k - 1 of what follows the first piece. */
  lemma ChopTail<T>(s: seq<T>, m: nat, count: nat, k: nat)
    requires |s| == m * count && 0 < k < count
    ensures |s[m..]| == m * (count - 1)
    ensures Chop(s, m, count)[k] == Chop(s[m..], m, count - 1)[k - 1]
  {
    MulStep(m, count - 1);
  }

  lemma MulStep(m: nat, c: nat)
    ensures m * (c + 1) == m * c + m && (c + 1) * m == c * m + m
  {
  }

  /** a <= b gives a * c <= b * c. */
  lemma {:induction false} MulMono(a: nat, b: nat, c: nat)
    requires a <= b
    ensures a * c <= b * c
    decreases b - a
  {
    if a < b {
      MulMono(a + 1, b, c);
      MulStep(c, a);
    }
  }

  /** Position (y, x) of an r x c image lies inside its r * c bytes. */
  lemma RowMajorBound(y: nat, x: nat, r: nat, c: nat)
    requires y < r && x < c
    ensures y * c + x < r * c
  {
    MulMono(y + 1, r, c);
    MulStep(c, y);
  }

  /** Flattening the pieces gives back the sequence. */
  lemma {:induction false} ConcatChop<T>(s: seq<T>, m: nat, count: nat)
    requires |s| == m * count
    ensures Concat(Chop(s, m, count)) == s
    decreases count
  {
    if count > 0 {
      ConcatChop(s[m..], m, count - 1);
      ConcatCons(s[..m], Chop(s[m..], m, count - 1));
    }
  }

  /** Chopping pieces of equal size laid end to end gives back the pieces. */
  lemma {:induction false} ChopConcat<T>(parts: seq<seq<T>>, m: nat)
    requires forall i :: 0 <= i < |parts| ==> |parts[i]| == m
    ensures |Concat(parts)| == m * |parts| && Chop(Concat(parts), m, |parts|) == parts
    decreases |parts|
  {
    if parts != [] {
      var rest := parts[1..];
      ChopConcat(rest, m);
      assert parts == [parts[0]] + rest;
      ConcatCons(parts[0], rest);
      var whole := Concat(parts);
      assert whole == parts[0] + Concat(rest);
      MulStep(m, |rest|);
      assert whole[..m] == parts[0] && whole[m..] == Concat(rest);
    }
  }

  // ------------------------------------------------------------------- images

  datatype IdxError =
    | BadMagic(magic: nat)                                       // the `assert magic == ...` fails
    | ShapeMismatch(n: nat, rows: nat, cols: nat, bytes: nat)    // `reshape` refuses

  /** The array `data.reshape(n, r, c)`: its shape and its images. */
  datatype ImageSet = ImageSet(n: nat, rows: nat, cols: nat, images: seq<seq<seq<byte>>>)

  predicate Shaped(s: ImageSet)
  {
    && |s.images| == s.n
    && forall k :: 0 <= k < s.n ==>
         |s.images[k]| == s.rows && forall y :: 0 <= y < s.rows ==> |s.images[k][y]| == s.cols
  }

  /** `data.reshape(n, r, c)` for data of exactly n * r * c bytes. */
  function Reshape(data: seq<byte>, n: nat, r: nat, c: nat): (s: ImageSet)
    requires |data| == n * (r * c)
    ensures Shaped(s) && s.n == n && s.rows == r && s.cols == c
  {
    var flat := Chop(data, r * c, n);
    ImageSet(n, r, c, seq(n, k requires 0 <= k < n => Chop(flat[k], c, r)))
  }

  /** Pixel (y, x) of image k is byte k*r*c + y*c + x of the data. */
  lemma ReshapeIndex(data: seq<byte>, n: nat, r: nat, c: nat, k: nat, y: nat, x: nat)
    requires |data| == n * (r * c) && k < n && y < r && x < c
    ensures k * (r * c) + (y * c + x) < |data|
    ensures Reshape(data, n, r, c).images[k][y][x] == data[k * (r * c) + (y * c + x)]
  {
    var m := r * c;
    var flat := Chop(data, m, n);
    assert Reshape(data, n, r, c).images[k] == Chop(flat[k], c, r);
    RowMajorBound(y, x, r, c);
    ChopIndex(flat[k], c, r, y, x);
    ChopIndex(data, m, n, k, y * c + x);
  }

  /** `load_images(path)` on the file's bytes. */
  function LoadImages(file: seq<byte>): (r: Result<ImageSet, IdxError>)
    ensures r.Failure? <==>
      Field(file, 0) != IMAGES_MAGIC
      || |After(file, 16)| != Field(file, 4) * (Field(file, 8) * Field(file, 12))
    ensures Field(file, 0) != IMAGES_MAGIC ==> r == Failure(BadMagic(Field(file, 0)))
    ensures r.Success? ==>
      && Shaped(r.value)
      && r.value.n == Field(file, 4) && r.value.rows == Field(file, 8) && r.value.cols == Field(file, 12)
  {
    var magic := Field(file, 0);
    if magic != IMAGES_MAGIC then Failure(BadMagic(magic))
    else
      var n, rows, cols := Field(file, 4), Field(file, 8), Field(file, 12);
      var data := After(file, 16);
      if |data| != n * (rows * cols) then Failure(ShapeMismatch(n, rows, cols, |data|))
      else Success(Reshape(data, n, rows, cols))
  }

  /** `load_labels(path)`: the bytes after the header; the count field is read but not checked. */
  function LoadLabels(file: seq<byte>): (r: Result<seq<byte>, IdxError>)
    ensures r.Failure? <==> Field(file, 0) != LABELS_MAGIC
    ensures r.Failure? ==> r.error == BadMagic(Field(file, 0))
    ensures r.Success? ==> |file| >= 8 ==> file == file[..8] + r.value
    ensures r.Success? && |file| <= 8 ==> r.value == []
  {
    var magic := Field(file, 0);
    if magic != LABELS_MAGIC then Failure(BadMagic(magic)) else Success(After(file, 8))
  }

  // ----------------------------------------------------------------- writing

  function Word(x: nat): (bs: seq<byte>)
    ensures |bs| == 4
  {
    ToBigEndian(x, 4)
  }

  /** An image file: magic, count, rows, columns, then the pixels row by row. */
  function EncodeImages(s: ImageSet): (file: seq<byte>)
    requires Shaped(s)
  {
    Word(IMAGES_MAGIC) + Word(s.n) + Word(s.rows) + Word(s.cols)
      + Concat(seq(s.n, k requires 0 <= k < s.n => Concat(s.images[k])))
  }

  /** A label file: magic, count, then one byte per label. */
  function EncodeLabels(labels: seq<byte>): (file: seq<byte>)
  {
    Word(LABELS_MAGIC) + Word(|labels|) + labels
  }

  /** The four header fields of an encoded file read back as written. */
  lemma HeaderReadsBack(file: seq<byte>, a: nat, b: nat, c: nat, d: nat, rest: seq<byte>)
    requires a < Pow256(4) && b < Pow256(4) && c < Pow256(4) && d < Pow256(4)
    requires file == Word(a) + Word(b) + Word(c) + Word(d) + rest
    ensures Field(file, 0) == a && Field(file, 4) == b && Field(file, 8) == c && Field(file, 12) == d
    ensures After(file, 16) == rest
  {
    assert Read4(file, 0) == Word(a);
    assert Read4(file, 4) == Word(b);
    assert Read4(file, 8) == Word(c);
    assert Read4(file, 12) == Word(d);
    BigEndianRoundTrip(a, 4);
    BigEndianRoundTrip(b, 4);
    BigEndianRoundTrip(c, 4);
    BigEndianRoundTrip(d, 4);
  }

  /** Reading an encoded image set gives it back. */
  lemma ImagesRoundTrip(s: ImageSet)
    requires Shaped(s) && s.n < Pow256(4) && s.rows < Pow256(4) && s.cols < Pow256(4)
    ensures LoadImages(EncodeImages(s)) == Success(s)
  {
    var file := EncodeImages(s);
    var flats := seq(s.n, k requires 0 <= k < s.n => Concat(s.images[k]));
    HeaderReadsBack(file, IMAGES_MAGIC, s.n, s.rows, s.cols, Concat(flats));
    FlattenReshapes(s, flats);
  }

  /** The pixels of a shaped set, flattened image by image, reshape to the set. */
  lemma FlattenReshapes(s: ImageSet, flats: seq<seq<byte>>)
    requires Shaped(s)
    requires |flats| == s.n && forall k :: 0 <= k < s.n ==> flats[k] == Concat(s.images[k])
    ensures |Concat(flats)| == s.n * (s.rows * s.cols)
    ensures Reshape(Concat(flats), s.n, s.rows, s.cols) == s
  {
    forall k | 0 <= k < s.n
      ensures |flats[k]| == s.rows * s.cols && Chop(flats[k], s.cols, s.rows) == s.images[k]
    {
      ChopConcat(s.images[k], s.cols);
      assert s.cols * |s.images[k]| == s.rows * s.cols;
    }
    ChopConcat(flats, s.rows * s.cols);
    assert (s.rows * s.cols) * |flats| == s.n * (s.rows * s.cols);
    var back := Reshape(Concat(flats), s.n, s.rows, s.cols);
    assert back.images == s.images;
  }

  /** Reading an encoded label file gives the labels back. */
  lemma LabelsRoundTrip(labels: seq<byte>)
    requires |labels| < Pow256(4)
    ensures LoadLabels(EncodeLabels(labels)) == Success(labels)
  {
    var file := EncodeLabels(labels);
    assert Read4(file, 0) == Word(LABELS_MAGIC);
    BigEndianRoundTrip(LABELS_MAGIC, 4);
    assert After(file, 8) == labels;
  }

  /**
    A file cut short inside the header still loads: missing header bytes
    read as absent, so a 4-byte file holding only the magic is a set of
    zero images of 0 x 0 pixels.
  */
  lemma MagicOnlyLoads(file: seq<byte>)
    requires |file| == 4 && Field(file, 0) == IMAGES_MAGIC
    ensures LoadImages(file) == Success(ImageSet(0, 0, 0, []))
  {
    assert Read4(file, 4) == [] && Read4(file, 8) == [] && Read4(file, 12) == [];
    assert After(file, 16) == [];
  }
}
