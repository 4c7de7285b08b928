# MNIST digit classifier over UART: a Dafny model

This project models the software around a MicroBlaze board that classifies handwritten
digits with a small integer neural network. At its centre is a framed, checksummed and
acknowledged UART chunk protocol:

- the host (`send_digit_to_fpga.py`) cuts a 784-byte 28x28 image into chunks of at most
  240 bytes and frames each one as `[0xAA][0x01][off_lo][off_hi][len][payload][xor]`;
- it sends each frame up to `retries` times, until the board answers `0x55` (ACK_OK);
- the firmware (`app.c`) resynchronises on the start byte and checks the header;
- it writes the payload into the image and a reassembly map, then answers ACK_OK or
  ACK_BAD (`0xEE`);
- once all 784 positions have been written, it runs the network (`mlp.c`) and prints
  `Pred: d` followed by the digit as one raw byte.

Around the protocol the model covers:

- the older "loose" protocol of the two test scripts: wait for `READY`, send raw 32-byte
  slices, then read reply lines;
- `pad_to_square`;
- the MNIST IDX readers;
- the three weight exporters (Xilinx COE, `$readmemh` and C headers);
- the script that reads the COE and header files back and compares them.

Each module follows one source file:

- `FrameCodec`: `xor_checksum`, `make_chunk` and the 240-byte chunking.
- `ChunkSender`: `send_bytes_to_fpga`. Replies come from a script; a read past the end
  of the script is a timeout.
- `ChunkReceiver`: `recv_and_apply_chunk` and `recv_image_784`.
  - A class `Receiver` holds the `img` and `got_map` arrays, `got_count`, the pending
    input bytes and the bytes sent so far.
  - Each method is proved against a pure step function (`RecvChunk`, `ReceiveImage`).
  - Running out of input stands for a receive that would block forever.
- `Firmware`: `main` of `app.c`, with the banner, the prediction and the two-part reply.
  It also holds the end-to-end lemmas joining host and board.
- `Mlp`: `mlp_predict_u8` over arrays, with the weights as a parameter.
- `LooseLink`, `SendToNN`, `BatchSend`: the test scripts.
- `Idx`: `load_mnist.py`, and the same loaders repeated in `sendToNN.py`.
- `Coe`, `Memh`, `CHeader`: the exporters, as methods writing text, each proved equal to
  a function of the array.
- `CompareWeights`: `load_coe`, `load_h_initializer_only` and `compare`.
- `CoeRoundTrip`, `HeaderRoundTrip`: reading each exporter's text back gives the array,
  and the two exports of one array compare as a perfect match.
- `Text`, `Bytes`, `Wrappers`: decimal and hex text, Python's `strip`/`split`/`join`,
  bytes, `Option` and `Result`.

`MAX_PAYLOAD` is 240 (vitis/mlp/send_digit_to_fpga.py:15), and `send_bytes_to_fpga`
uses it to cut the chunks. `make_chunk` itself does not check it: it fails only when the
payload no longer fits the length byte (256 bytes or more, where `bytes([...])` raises).
`FrameCodec.MakeChunk` models that.

## Model

| member | source | states |
|---|---|---|
| FrameCodec.XorChecksum | vitis/mlp/send_digit_to_fpga.py:18-22 | the accumulator loop computes the XOR fold of all bytes (0 on empty input) |
| FrameCodec.XorFoldAppend | vitis/mlp/send_digit_to_fpga.py:18-22 | the checksum of a concatenation is the XOR of the two checksums |
| FrameCodec.ChecksumCancels | vitis/mlp/send_digit_to_fpga.py:30-32 | a body followed by its own checksum XOR-folds to 0 |
| FrameCodec.MakeChunk | vitis/mlp/send_digit_to_fpga.py:25-32 | fails exactly when the payload exceeds 255 bytes; otherwise 6+len bytes: 0xAA, 0x01, offset mod 256, (offset >> 8) mod 256, len, the payload, then the XOR of everything after the start byte |
| FrameCodec.FrameSelfChecks | vitis/mlp/send_digit_to_fpga.py:30-32 | the checksum covers type, both offset bytes, length and payload but not 0xAA; the frame after the start byte folds to 0 |
| FrameCodec.ChunkAt | vitis/mlp/send_digit_to_fpga.py:42 | `data[o:o+240]` holds at most 240 bytes, and at least one while o is inside the data |
| FrameCodec.ChunkOffsets | vitis/mlp/send_digit_to_fpga.py:40-61 | every offset the loop visits lies in [o, len(data)) |
| FrameCodec.OffsetsMatchChunks | vitis/mlp/send_digit_to_fpga.py:40-61 | the loop's offsets and the chunks correspond one for one, each chunk sliced at its offset |
| FrameCodec.ChunksConcat | vitis/mlp/send_digit_to_fpga.py:40-61 | the chunks, concatenated, are exactly the data: contiguous, in order, not overlapping |
| FrameCodec.ChunksCount | vitis/mlp/send_digit_to_fpga.py:40-61 | there are ceil(len/240) chunks |
| FrameCodec.ChunksShape | vitis/mlp/send_digit_to_fpga.py:40-61 | chunk i starts at 240*i and holds 1 to 240 bytes |
| FrameCodec.ImageChunks | vitis/mlp/send_digit_to_fpga.py:40-61 | a 784-byte image is sent as four chunks of 240, 240, 240 and 64 bytes |
| FrameCodec.ImageOffsets | vitis/mlp/send_digit_to_fpga.py:40-61 | the offsets for 784 bytes are 0, 240, 480, 720 |
| ChunkSender.FirstOkMeaning | vitis/mlp/send_digit_to_fpga.py:47-56 | the attempt that succeeds is the first reply equal to ACK_OK among the next `retries`; every other reply (ACK_BAD, timeout, any byte) uses up an attempt |
| ChunkSender.FirstOkAt | vitis/mlp/send_digit_to_fpga.py:47-56 | an ACK_OK at attempt i after i non-OK replies makes i the succeeding attempt |
| ChunkSender.NoOkWithin | vitis/mlp/send_digit_to_fpga.py:47-59 | with no ACK_OK among `retries` replies the chunk fails |
| ChunkSender.SendWithRetries | vitis/mlp/send_digit_to_fpga.py:45-56 | the retry loop succeeds iff an ACK_OK comes within `retries` replies; it writes the same packet once per attempt; on failure it reports the last reply |
| ChunkSender.SendChunk | vitis/mlp/send_digit_to_fpga.py:42-61 | one outer-loop pass advances the offset by the chunk length after an OK; otherwise it ends the session failed at that offset |
| ChunkSender.SendBytesToFpga | vitis/mlp/send_digit_to_fpga.py:35-91 | writes exactly the session's packets; raises ChunkFailed naming the offset and the last reply; or succeeds and classifies the reply, reading nothing when `read_back` is false |
| ChunkSender.TransferFails | vitis/mlp/send_digit_to_fpga.py:58-59 | a chunk without ACK_OK is written `retries` times and ends the session at its offset; no later chunk is written |
| ChunkSender.TransferAdvances | vitis/mlp/send_digit_to_fpga.py:58-61 | a chunk acknowledged at attempt a is written a times, then the session continues at the next chunk |
| ChunkSender.AllOkSendsEachChunkOnce | vitis/mlp/send_digit_to_fpga.py:40-61 | when every reply is ACK_OK each chunk's packet is written exactly once, in offset order |
| ChunkSender.FailureRepeatsLastChunk | vitis/mlp/send_digit_to_fpga.py:47-59 | a failed session fails at an offset inside the data and ends with that chunk's packet written `retries` times |
| ChunkSender.WritesAreChunkPackets | vitis/mlp/send_digit_to_fpga.py:40-61 | everything written is a chunk's packet, at offsets no later than the failing one: the offset advances only after an OK |
| ChunkSender.OnlyOkMatters | vitis/mlp/send_digit_to_fpga.py:50-56 | replies other than ACK_OK are interchangeable: the writes and the outcome depend only on where ACK_OK occurs |
| ChunkSender.RetriedFirstChunk | vitis/mlp/send_digit_to_fpga.py:47-61 | with two ACK_BAD and then OKs, the first frame is written three times and the others once |
| ChunkSender.ZeroRetriesFailsAtOnce | vitis/mlp/send_digit_to_fpga.py:47-59 | with `retries=0` a non-empty transfer fails at offset 0 having written nothing |
| ChunkSender.EmptyTransferSendsNothing | vitis/mlp/send_digit_to_fpga.py:41 | empty data writes nothing and succeeds |
| ChunkSender.ReadWindow | vitis/mlp/send_digit_to_fpga.py:72 | `s.read(64)` returns a prefix of what is waiting, at most 64 bytes |
| ChunkSender.ClassifyReply | vitis/mlp/send_digit_to_fpga.py:80-91 | a non-empty reply whose first byte is not 'P' or 'p' is a raw digit equal to that byte, with no range check; anything else is text, decoded as ASCII with U+FFFD for bytes of 128 or more |
| ChunkReceiver.FindStart | vitis/mlp/app.c:49-51 | the resync loop stops at the first 0xAA; every byte before it is something else |
| ChunkReceiver.U16 | vitis/mlp/app.c:58 | the little-endian offset `off_lo \| off_hi << 8` is below 65536 |
| ChunkReceiver.OffsetBytes | vitis/mlp/app.c:58 | the two offset bytes the host writes decode back to its offset |
| ChunkReceiver.RecvChunk | vitis/mlp/app.c:46-103 | one call keeps both buffers at 784 entries and consumes at least one byte unless the input runs dry |
| ChunkReceiver.AfterStartCases | vitis/mlp/app.c:53-72 | after the start byte: a bad type answers ACK_BAD at once with buffers untouched; length 0 or offset+len > 784 drops len+1 bytes, then ACK_BAD; otherwise the payload is applied |
| ChunkReceiver.ApplyPayload | vitis/mlp/app.c:75-102 | the payload loop and checksum test keep both buffers at 784 entries and consume input |
| ChunkReceiver.ResyncDropsNoise | vitis/mlp/app.c:49-51 | bytes other than 0xAA before a frame have no effect |
| ChunkReceiver.BadTypeConsumesHeader | vitis/mlp/app.c:61-64 | a type other than 0x01 consumes only the four header bytes, sends ACK_BAD and leaves img, got_map and got_count alone |
| ChunkReceiver.BadLengthDropsFrame | vitis/mlp/app.c:66-72 | len 0 or offset+len > 784 consumes payload and checksum, sends ACK_BAD, leaves the buffers alone |
| ChunkReceiver.ChunkVerdict | vitis/mlp/app.c:75-102 | a valid header copies the payload into img and marks got_map before the checksum test, so a corrupt chunk still changes them; ACK_OK iff the XOR of header and payload equals the received byte |
| ChunkReceiver.PayloadArrives | vitis/mlp/app.c:81-102 | the payload loop stores each byte at offset+i, counts newly marked entries and compares the checksum |
| ChunkReceiver.FrameAccepted | vitis/mlp/app.c:58-102 | a `make_chunk` frame with len >= 1 and offset+len <= 784, uncorrupted, is acknowledged OK and copies its payload at its offset |
| ChunkReceiver.MarkCounts | vitis/mlp/app.c:87-90 | marking a stretch adds exactly the number of entries that flip from 0 to 1 |
| ChunkReceiver.RecvChunkKeepsCount | vitis/mlp/app.c:87-90 | got_count stays equal to the number of set entries, never decreases, never exceeds 784, and set entries stay set |
| ChunkReceiver.ApplyPayloadKeepsCount | vitis/mlp/app.c:81-92 | the same invariant across the payload loop |
| ChunkReceiver.ReceiveImage | vitis/mlp/app.c:113-116 | the `while (got_count < 784)` loop keeps both buffers at 784 entries |
| ChunkReceiver.ReceiveImageCompletes | vitis/mlp/app.c:113-116 | when the loop returns, got_count is 784 and every position has been written |
| ChunkReceiver.ImageFromStreamCompletes | vitis/mlp/app.c:106-117 | from the zeroed buffers, a completed receive has written all 784 positions |
| ChunkReceiver.ImageFromStreamConsumes | vitis/mlp/app.c:106-117 | a completed receive has consumed input |
| ChunkReceiver.CollectAgrees | vitis/mlp/app.c:113-116 | the loop run over any step that is `recv_and_apply_chunk` is `ReceiveImage` |
| ChunkReceiver.FramesReassemble | vitis/mlp/app.c:106-117 | the host's frames for the rest of an image, sent once each, complete the image with the data and one ACK_OK per frame |
| ChunkReceiver.ImageReassembles | vitis/mlp/app.c:106-117 | the four frames of a 784-byte image rebuild it exactly and are answered by four ACK_OK |
| ChunkReceiver.Receiver.constructor | vitis/mlp/app.c:107-111 | the map starts clear and the count at 0, over the given input |
| ChunkReceiver.Receiver.RecvByte | vitis/mlp/app.c:33-36 | takes the next input byte; none when the input has run dry |
| ChunkReceiver.Receiver.SendByte | vitis/mlp/app.c:38-41 | appends one byte to the output |
| ChunkReceiver.Receiver.Resync | vitis/mlp/app.c:49-51 | the do-while loop consumes input up to and including the first 0xAA |
| ChunkReceiver.Receiver.RecvHeader | vitis/mlp/app.c:53-56 | reads type, off_lo, off_hi and len |
| ChunkReceiver.Receiver.CheckHeader | vitis/mlp/app.c:58-72 | the type and length checks, as `AfterStart` states them |
| ChunkReceiver.Receiver.DropFrame | vitis/mlp/app.c:68-70 | drops len payload bytes and the checksum, then sends ACK_BAD |
| ChunkReceiver.Receiver.PaintByte | vitis/mlp/app.c:85-91 | stores one byte, marks its position and counts it if it was unmarked |
| ChunkReceiver.Receiver.PaintLoop | vitis/mlp/app.c:81-92 | the payload loop overwrites img and got_map from the offset, adds the newly marked count and accumulates the checksum |
| ChunkReceiver.Receiver.PaintPayload | vitis/mlp/app.c:75-102 | the checksum start, payload loop and verdict, as `ApplyPayload` states them |
| ChunkReceiver.Receiver.RecvFrame | vitis/mlp/app.c:53-102 | everything after the start byte, as `AfterStart` states it |
| ChunkReceiver.Receiver.RecvAndApplyChunk | vitis/mlp/app.c:46-103 | `recv_and_apply_chunk` changes buffers, count, input and output as `RecvChunk` states |
| ChunkReceiver.Receiver.ClearBuffers | vitis/mlp/app.c:109-111 | both `memset`s and `got_count = 0` |
| ChunkReceiver.Receiver.Turn | vitis/mlp/app.c:113-116 | one loop turn consumes input or ends the loop starved |
| ChunkReceiver.Receiver.CollectChunks | vitis/mlp/app.c:113-116 | the loop leaves the state `Collect` states |
| ChunkReceiver.Receiver.RecvImage784 | vitis/mlp/app.c:106-117 | `recv_image_784` returns with got_count 784 and every position of got_map set |
| Firmware.PredText | vitis/mlp/app.c:129 | `Pred: %d\r\n` for a digit is nine characters with that digit at index 6 |
| Firmware.Reply | vitis/mlp/app.c:129-132 | the text line goes out first, then the digit as one raw byte |
| Firmware.Answer | vitis/mlp/app.c:127-132 | the digit is the network's prediction on the received image, followed by that reply |
| Firmware.Run | vitis/mlp/app.c:119-134 | `main` writes the banner, then for each completed image its acknowledgements and reply |
| Firmware.Round | vitis/mlp/app.c:124-133 | one turn of the main loop receives an image and answers it, or stops when the input runs dry |
| Firmware.MainLoopStep | vitis/mlp/app.c:124-133 | the loop is one receive and one reply, then the loop again |
| Firmware.Heard | vitis/mlp/send_digit_to_fpga.py:50 | the host reads the board's bytes one per `read(1)`, in order |
| Firmware.WritesFormStream | vitis/mlp/send_digit_to_fpga.py:40-61 | the packets of a session that sends each chunk once, laid end to end, are the frame stream |
| Firmware.SessionDelivers | vitis/mlp/app.c:106-117 | host and board together: the image arrives intact, and the host reads exactly the board's acknowledgements and finishes |
| Firmware.HostSendsEachFrameOnce | vitis/mlp/send_digit_to_fpga.py:40-61 | four ACK_OK replies take the host through a 784-byte image, writing each frame once |
| Firmware.HostReadsText | vitis/mlp/send_digit_to_fpga.py:80-91 | the host treats the board's reply as text (it starts with 'P'); its decoded text begins with the firmware's "Pred: d" line; the digit is the tenth byte |
| Firmware.ReplyStartsWithP | vitis/mlp/app.c:129 | the reply's first byte is 0x50 |
| Firmware.FirstPrediction | vitis/mlp/app.c:124-133 | the frames of an image are answered by four ACK_OK and the reply for the network's prediction |
| Mlp.Relu | vitis/mlp/mlp.c:16 | `relu_i32` gives x when positive and 0 otherwise |
| Mlp.Centered | vitis/mlp/mlp.c:27 | a pixel enters layer 1 as img[i] - 128, in [-128, 127] |
| Mlp.HiddenUnit | vitis/mlp/mlp.c:23-31 | h[j] is the ReLU of b1[j] plus the weighted centred pixels: exactly max(0, pre-activation) |
| Mlp.HiddenLayer | vitis/mlp/mlp.c:23-31 | 32 non-negative activations |
| Mlp.HiddenActivations | vitis/mlp/mlp.c:23-31 | the nested layer-1 loops fill h with `HiddenLayer` |
| Mlp.OutputScore | vitis/mlp/mlp.c:38-42 | the layer-2 loop computes b2[k] plus the weighted shifted activations |
| Mlp.Logits | vitis/mlp/mlp.c:37-47 | ten scores |
| Mlp.FirstMax | vitis/mlp/mlp.c:43-46 | the index of a largest score with no earlier score as large |
| Mlp.FirstMaxUnique | vitis/mlp/mlp.c:43-46 | the tie rule picks one index: the lowest of the maxima |
| Mlp.Predict | vitis/mlp/mlp.c:19-50 | returns a digit 0..9 whose score is >= every other score, strictly above every earlier one; the image is only read |
| Mlp.ShiftIsFloor | vitis/mlp/mlp.c:40 | on non-negative h, h >> 8 is floor(h / 256) |
| Mlp.ProductBound | vitis/mlp/mlp.c:28 | an int8 weight times a centred pixel lies within +-16384 |
| Mlp.Dot1Bound | vitis/mlp/mlp.c:26-29 | a partial layer-1 sum of n terms lies within +-16384 n |
| Mlp.Layer1FitsInt32 | vitis/mlp/mlp.c:24-29 | with int8 weights and a bias at least 784*16384 from the int32 limits, the layer-1 accumulator never overflows |
| LooseLink.ReadyStays | digit_fpga_nn/data/sendToNN.py:64-81 | READY once seen in the accumulated text stays seen: text arriving later cannot remove it |
| LooseLink.WaitForReady | vitis/mlp/handwritten_testing/batch_send.py:79-89 | ready iff "READY" occurs in the accumulated text, even split across reads; it stops at the first read that completes it |
| LooseLink.Slice | digit_fpga_nn/data/sendToNN.py:101 | `data[i:i+n]` has at most n bytes |
| LooseLink.SlicesArePrefix | digit_fpga_nn/data/sendToNN.py:100-104 | the first k slices together are the first 32k bytes |
| LooseLink.SliceOfSlices | digit_fpga_nn/data/sendToNN.py:100-101 | slice k starts at byte 32k |
| LooseLink.ImageSlices | digit_fpga_nn/data/sendToNN.py:96-104 | a 784-byte image goes out as 25 writes, 24 of 32 bytes and the last of 16, together the image |
| LooseLink.SendSlices | vitis/mlp/handwritten_testing/batch_send.py:125-132 | the loop writes those slices and counts 784 bytes sent for an image |
| SendToNN.PredField | digit_fpga_nn/data/sendToNN.py:129 | `line.split(':')[1]` is the text between the first and second ':' |
| SendToNN.FieldBeforeColon | digit_fpga_nn/data/sendToNN.py:129 | the field after "PRED:" runs up to the next ':' or the end |
| SendToNN.PredLineReadsBack | digit_fpga_nn/data/sendToNN.py:128-131 | a line "PRED:" + decimal x is read as prediction x |
| SendToNN.DebugLinesDoNotAnswer | digit_fpga_nn/data/sendToNN.py:132-133 | lines starting "HW:" or "SW" are only debug output |
| SendToNN.AwaitPrediction | digit_fpga_nn/data/sendToNN.py:116-140 | the result is the number on the first PRED line that parses; a PRED line that does not parse is skipped; None when no line answers |
| SendToNN.SendImageUart | digit_fpga_nn/data/sendToNN.py:43-140 | without READY nothing is written and the result is None; otherwise the 32-byte slices, then the first parsed prediction |
| SendToNN.Clamp | digit_fpga_nn/data/sendToNN.py:334 | `max(0, min(255, v))` |
| SendToNN.SinglePixelImage | digit_fpga_nn/data/sendToNN.py:335-342 | an index outside 0..783 is rejected; otherwise 784 zero bytes except the clamped value at the index |
| SendToNN.SendSinglePixel | digit_fpga_nn/data/sendToNN.py:325-349 | a bad index sends nothing; otherwise the "1" command, then the single-pixel image and the first PRED answer once READY arrives; without READY only the "1" and no prediction |
| BatchSend.PadToSquare | vitis/mlp/handwritten_testing/batch_send.py:14-21 | an s x s array, s = max(h, w), holding the input at row (s-h)//2 and column (s-w)//2 and 0 elsewhere; a square input comes back unchanged |
| BatchSend.LastWith | vitis/mlp/handwritten_testing/batch_send.py:144-147 | the remembered line of a kind starts with its prefix |
| BatchSend.LastWithStep | vitis/mlp/handwritten_testing/batch_send.py:144-147 | a later line of the same kind replaces the earlier one; other lines change nothing |
| BatchSend.LastWithStays | vitis/mlp/handwritten_testing/batch_send.py:144-147 | a kind once seen stays seen |
| BatchSend.KindsExclusive | vitis/mlp/handwritten_testing/batch_send.py:144-147 | no line is both a Prediction and a Logits line |
| BatchSend.AwaitPair | vitis/mlp/handwritten_testing/batch_send.py:136-156 | the wait reports iff both kinds appear, in either order; it stops at the first line that completes the pair and reports the last line of each kind |
| BatchSend.SendImage | vitis/mlp/handwritten_testing/batch_send.py:92-156 | "1" is always written first; without READY nothing else is written; otherwise the slices, then the pair wait |
| Idx.BigEndian | digit_fpga_nn/training/load_mnist.py:5 | `int.from_bytes(bs, "big")` is below 256^len |
| Idx.BigEndianRoundTrip | digit_fpga_nn/training/load_mnist.py:5-9 | the k-byte big-endian encoding of x < 256^k reads back as x |
| Idx.Read4 | digit_fpga_nn/training/load_mnist.py:5 | `f.read(4)` returns at most four bytes, fewer near the end |
| Idx.Chop | digit_fpga_nn/training/load_mnist.py:11 | the outer step of a reshape: `count` pieces of m elements |
| Idx.ChopIndex | digit_fpga_nn/training/load_mnist.py:11 | element j of piece k is element k*m + j |
| Idx.ConcatChop | digit_fpga_nn/training/load_mnist.py:11 | flattening the pieces gives back the sequence |
| Idx.ChopConcat | digit_fpga_nn/training/load_mnist.py:11 | chopping equal pieces laid end to end gives back the pieces |
| Idx.Reshape | digit_fpga_nn/training/load_mnist.py:11 | `reshape(n, r, c)` yields n images of r rows of c bytes |
| Idx.ReshapeIndex | digit_fpga_nn/training/load_mnist.py:11 | element [k][y][x] is data[k*r*c + y*c + x] |
| Idx.LoadImages | digit_fpga_nn/training/load_mnist.py:3-11 | fails iff the magic is not 2051 or the pixel count is not n*r*c; otherwise shaped by the three header words |
| Idx.LoadLabels | digit_fpga_nn/training/load_mnist.py:13-19 | fails iff the magic is not 2049; otherwise all bytes after the 8-byte header (none for a file of 8 bytes or fewer), the count unchecked |
| Idx.HeaderReadsBack | digit_fpga_nn/training/load_mnist.py:5-10 | four encoded words read back as the header fields, followed by the data |
| Idx.ImagesRoundTrip | digit_fpga_nn/training/load_mnist.py:3-11 | loading an encoded image set gives it back |
| Idx.FlattenReshapes | digit_fpga_nn/training/load_mnist.py:10-11 | the pixels flattened image by image reshape to the set |
| Idx.LabelsRoundTrip | digit_fpga_nn/training/load_mnist.py:13-19 | loading an encoded label file gives the labels back |
| Idx.MagicOnlyLoads | digit_fpga_nn/training/load_mnist.py:5-11 | a file holding only the magic loads as an empty set: short reads give 0 |
| Coe.Hex8 | digit_fpga_nn/training/export_vivado_coe.py:37 | two lowercase hex digits whose value is x & 0xFF, so -1 gives ff and -128 gives 80 |
| Coe.Hex32 | digit_fpga_nn/training/export_vivado_coe.py:41 | eight lowercase hex digits whose value is x & 0xFFFFFFFF |
| Coe.HexList8 | digit_fpga_nn/training/export_vivado_coe.py:34-37 | one entry per element, in row-major order, for each the value x mod 256 |
| Coe.HexList32 | digit_fpga_nn/training/export_vivado_coe.py:39-41 | one entry per element, in row-major order, for each the value x mod 2^32 |
| Coe.WriteCoe | digit_fpga_nn/training/export_vivado_coe.py:19-32 | the loop writes the radix and vector lines, then `values_per_line` values per line; with 0 values per line the header is written and ValueError raised; with a negative count the file is the header alone |
| Coe.EmptyCoeIsHeader | digit_fpga_nn/training/export_vivado_coe.py:26 | with no values only the two header lines are written |
| Coe.CoeLinesJoined | digit_fpga_nn/training/export_vivado_coe.py:26-32 | without the line breaks the data lines are all values in order joined by ',' and closed by one ';': every line but the last ends ",\n" |
| Coe.CoeLinesAvoid | digit_fpga_nn/training/export_vivado_coe.py:26-32 | the data lines contain only the values' characters and ",;\n" |
| Memh.WriteMem8 | digit_fpga_nn/training/export_memh.py:13-16 | the loop writes one line per element: the `i8_to_hex_list` entry |
| Memh.WriteMem32 | digit_fpga_nn/training/export_memh.py:18-21 | the loop writes one line per element: the `i32_to_hex_list` entry |
| Memh.MemLines | digit_fpga_nn/training/export_memh.py:15-16 | splitting the text at newlines gives the entries, one per line, then the empty rest |
| Memh.MemLinesAreHexLists | digit_fpga_nn/training/export_memh.py:13-21 | the lines of each `.mem` file are the COE exporter's hex entries for the same array, in order |
| CHeader.WriteInt8Matrix | digit_fpga_nn/training/export_weights_int8.py:16-25 | the preamble, the declaration with the actual shape, one `  {...}` line per row with ",\n" between rows and "\n" after the last, then "};\n" |
| CHeader.WriteInt32Vector | digit_fpga_nn/training/export_weights_int8.py:27-32 | the preamble, then every value on the declaration line between "= {" and "};\n" |
| CompareWeights.Find | digit_fpga_nn/hls_nn/weights/vivado_init/compare_weights.py:25 | the position of the first occurrence of the key: the key is there and at no earlier position; None exactly when the key occurs nowhere |
| CompareWeights.FindAfter | digit_fpga_nn/hls_nn/weights/vivado_init/compare_weights.py:25 | the key is found right after a prefix that cannot hold it |
| CompareWeights.Fields | digit_fpga_nn/hls_nn/weights/vivado_init/compare_weights.py:27 | empty fields are dropped |
| CompareWeights.ParseHexAll | digit_fpga_nn/hls_nn/weights/vivado_init/compare_weights.py:30 | succeeds iff every field is a non-empty run of hex digits, and then gives `int(x, 16)` of each field in order; otherwise fails naming a field that is not hex |
| CompareWeights.Signed | digit_fpga_nn/hls_nn/weights/vivado_init/compare_weights.py:30-32 | two's complement: v if v < size/2, else v - size |
| CompareWeights.Reinterpret | digit_fpga_nn/hls_nn/weights/vivado_init/compare_weights.py:30-32 | succeeds iff every value fits the unsigned type, then each is reinterpreted as signed; otherwise the out-of-range value |
| CompareWeights.DecodeFields | digit_fpga_nn/hls_nn/weights/vivado_init/compare_weights.py:29-32 | succeeds iff every field is hex and its value fits the width; then field i gives the signed reading of its value; otherwise a failure naming a bad field or value |
| CompareWeights.LoadCoe | digit_fpga_nn/hls_nn/weights/vivado_init/compare_weights.py:22-35 | fails without the vector key; widths other than 8 and 32 raise; otherwise value i is the signed reading of field i of the vector text |
| CompareWeights.FromNewline | digit_fpga_nn/hls_nn/weights/vivado_init/compare_weights.py:9 | the rest of a line comment from its newline on |
| CompareWeights.StripLineComments | digit_fpga_nn/hls_nn/weights/vivado_init/compare_weights.py:9 | removing `//` comments adds no characters |
| CompareWeights.StripBlockComments | digit_fpga_nn/hls_nn/weights/vivado_init/compare_weights.py:10 | removing `/*...*/` comments adds no characters |
| CompareWeights.SkipSpaces | digit_fpga_nn/hls_nn/weights/vivado_init/compare_weights.py:13 | `\s*` stops at the first character that is not white space |
| CompareWeights.LastClose | digit_fpga_nn/hls_nn/weights/vivado_init/compare_weights.py:13 | the greedy `(.*)` ends at the last `}\s*;` |
| CompareWeights.DigitRun | digit_fpga_nn/hls_nn/weights/vivado_init/compare_weights.py:19 | `\d+` takes the longest run of digits |
| CompareWeights.LoadH | digit_fpga_nn/hls_nn/weights/vivado_init/compare_weights.py:4-20 | fails iff no `= { ... };` initializer remains after comment removal |
| CompareWeights.MismatchIndices | digit_fpga_nn/hls_nn/weights/vivado_init/compare_weights.py:47 | exactly the indices where the arrays differ, in increasing order |
| CompareWeights.Compare | digit_fpga_nn/hls_nn/weights/vivado_init/compare_weights.py:37-53 | size mismatch iff the lengths differ; perfect match iff equal; otherwise the mismatch count and the first min(10, count) indices |
| CoeRoundTrip.PieceAfterVectorKey | digit_fpga_nn/hls_nn/weights/vivado_init/compare_weights.py:25 | in an exported COE the text after the vector key is the data lines |
| CoeRoundTrip.DataLinesFields | digit_fpga_nn/hls_nn/weights/vivado_init/compare_weights.py:26-27 | removing ';' and newlines and splitting at ',' gives back the written entries |
| CoeRoundTrip.SignedOfResidue | digit_fpga_nn/hls_nn/weights/vivado_init/compare_weights.py:30-32 | reinterpreting x mod 2^bits as signed gives back x |
| CoeRoundTrip.ReinterpretResidues | digit_fpga_nn/hls_nn/weights/vivado_init/compare_weights.py:30-32 | the same for a whole array |
| CoeRoundTrip.CoeFields | digit_fpga_nn/hls_nn/weights/vivado_init/compare_weights.py:25-27 | the fields of an exported COE are its hex entries |
| CoeRoundTrip.Int8CoeRoundTrip | digit_fpga_nn/hls_nn/weights/vivado_init/compare_weights.py:22-35 | `load_coe(write_coe(i8_to_hex_list(a)), 8)` is the row-major flattening of the int8 array a |
| CoeRoundTrip.Int32CoeRoundTrip | digit_fpga_nn/hls_nn/weights/vivado_init/compare_weights.py:22-35 | the same for int32 arrays and 32 bits |
| HeaderRoundTrip.NoSlashNoComment | digit_fpga_nn/hls_nn/weights/vivado_init/compare_weights.py:9-10 | text without '/' passes comment removal unchanged |
| HeaderRoundTrip.LineCommentDropped | digit_fpga_nn/hls_nn/weights/vivado_init/compare_weights.py:9 | a `//` comment is removed up to its newline |
| HeaderRoundTrip.BlockCommentDropped | digit_fpga_nn/hls_nn/weights/vivado_init/compare_weights.py:10 | a `/*...*/` comment is removed |
| HeaderRoundTrip.InitializerAt | digit_fpga_nn/hls_nn/weights/vivado_init/compare_weights.py:13-17 | in `pre = {body};` with no '=' in pre, the initializer is body |
| HeaderRoundTrip.NumbersOfInt | digit_fpga_nn/hls_nn/weights/vivado_init/compare_weights.py:19-20 | `-?\d+` reads `str(x)` back as x |
| HeaderRoundTrip.NumbersOfJoin | digit_fpga_nn/hls_nn/weights/vivado_init/compare_weights.py:19-20 | comma-joined decimals read back as the values |
| HeaderRoundTrip.NumbersOfRowLines | digit_fpga_nn/training/export_weights_int8.py:20-24 | the row lines read back as the rows' values in row-major order |
| HeaderRoundTrip.Int8Shape | digit_fpga_nn/training/export_weights_int8.py:18-25 | the matrix text is its declaration up to '=', then "= {", the rows, "};\n" |
| HeaderRoundTrip.Int32Shape | digit_fpga_nn/training/export_weights_int8.py:29-32 | the vector text is its declaration up to '=', then "= {", the values, "};\n" |
| HeaderRoundTrip.Int8HeaderRoundTrip | digit_fpga_nn/hls_nn/weights/vivado_init/compare_weights.py:4-20 | `load_h_initializer_only(write_i8_2d(name, a))` is a flattened; the shape's digits before '=' are skipped |
| HeaderRoundTrip.Int32HeaderRoundTrip | digit_fpga_nn/hls_nn/weights/vivado_init/compare_weights.py:4-20 | `load_h_initializer_only(write_i32_1d(name, a))` is a |
| HeaderRoundTrip.Int8ExportsAgree | digit_fpga_nn/hls_nn/weights/vivado_init/compare_weights.py:37-53 | the COE and header exports of one int8 matrix load and compare as a perfect match |
| HeaderRoundTrip.Int32ExportsAgree | digit_fpga_nn/hls_nn/weights/vivado_init/compare_weights.py:37-53 | the same for an int32 vector |
| Text.IntToString | digit_fpga_nn/training/export_weights_int8.py:22 | `str(x)`: a '-' before the digits exactly when x < 0 |
| Text.ParseIntOfIntToString | digit_fpga_nn/data/sendToNN.py:130 | `int(str(x))` is x |
| Text.HexValueOfHexFixed | digit_fpga_nn/training/export_vivado_coe.py:37 | fixed-width lowercase hex reads back as its value |
| Text.SplitJoin | digit_fpga_nn/hls_nn/weights/vivado_init/compare_weights.py:27 | splitting a join at a separator found in no part gives back the parts |
| Text.RemoveCharSwap | digit_fpga_nn/hls_nn/weights/vivado_init/compare_weights.py:26 | the two `replace` calls commute |
| Bytes.AsciiDecode | vitis/mlp/send_digit_to_fpga.py:87 | one character per byte: the byte's own code below 128, U+FFFD for every byte of 128 or more |
| Bytes.DecodeEncode | vitis/mlp/send_digit_to_fpga.py:87 | decoding the bytes of ASCII text gives the text back |
| Text.TrimStartDropsSpaces | digit_fpga_nn/data/sendToNN.py:123 | the leading half of `strip()` leaves a suffix and removes only white space |
| Text.TrimEndDropsSpaces | digit_fpga_nn/data/sendToNN.py:123 | the trailing half of `strip()` leaves a prefix and removes only white space |
| Text.SplitNoSeparator | digit_fpga_nn/data/sendToNN.py:129 | text without the separator splits into itself alone |
| Text.SplitAfterPiece | digit_fpga_nn/data/sendToNN.py:129 | a piece without the separator, then the separator, is the first field, followed by the fields of the rest |

## Specification functions

These functions model source lines directly but carry no property of their own. The
rows above state their properties, through the lemmas and methods proved about them.

- `ChunkSender.FirstOk` (vitis/mlp/send_digit_to_fpga.py:47-56), the retry loop's
  outcome: `FirstOkMeaning`, `FirstOkAt`, `NoOkWithin`; `SendWithRetries` is proved
  equal to it.
- `ChunkSender.TransferFrom` (vitis/mlp/send_digit_to_fpga.py:40-61), the chunk loop:
  `TransferFails`, `TransferAdvances`, `AllOkSendsEachChunkOnce`,
  `FailureRepeatsLastChunk`, `WritesAreChunkPackets`, `OnlyOkMatters`;
  `SendBytesToFpga` is proved against it.
- `ChunkReceiver.AfterStart` (vitis/mlp/app.c:53-102), `recv_and_apply_chunk` after the
  start byte: `AfterStartCases`, `ChunkVerdict`, `BadTypeConsumesHeader`,
  `BadLengthDropsFrame`, `FrameAccepted`.
- `Firmware.MainLoop` (vitis/mlp/app.c:124-133): `MainLoopStep`, `Run`,
  `SessionDelivers`, `FirstPrediction`.
- `CompareWeights.PieceAfter` and `CompareWeights.VectorFields`
  (digit_fpga_nn/hls_nn/weights/vivado_init/compare_weights.py:25-27): `LoadCoe`, `CoeRoundTrip.PieceAfterVectorKey`,
  `CoeRoundTrip.DataLinesFields`, `CoeRoundTrip.CoeFields`.
- `CompareWeights.InitializerFrom` and `CompareWeights.Numbers`
  (digit_fpga_nn/hls_nn/weights/vivado_init/compare_weights.py:13-20): `LoadH`, `HeaderRoundTrip.InitializerAt`,
  `HeaderRoundTrip.NumbersOfInt`, `HeaderRoundTrip.NumbersOfJoin`,
  `HeaderRoundTrip.NumbersOfRowLines`.
- `SendToNN.Classify` (digit_fpga_nn/data/sendToNN.py:128-133): `AwaitPrediction`,
  `PredLineReadsBack`, `DebugLinesDoNotAnswer`.
- `LooseLink.Slices` (digit_fpga_nn/data/sendToNN.py:100-104): `SlicesArePrefix`,
  `SliceOfSlices`, `ImageSlices`, `SendSlices`.
- `Mlp.Asr`, `Mlp.Dot1` and `Mlp.Dot2` (vitis/mlp/mlp.c:26-29, 38-42): `ShiftIsFloor`,
  `Dot1Bound`, `HiddenUnit`, `OutputScore`, `HiddenActivations`.
- `FrameCodec.XorFold` and `FrameCodec.Frame` (vitis/mlp/send_digit_to_fpga.py:18-32):
  `XorChecksum`, `XorFoldAppend`, `ChecksumCancels`, `MakeChunk`, `FrameSelfChecks`.
- `Text.ParseInt`, `Text.Strip`, `Text.Split` and `Text.IsSpace` (Python's `int()`,
  `str.strip`, `str.split` and `str.isspace`): `ParseIntOfIntToString`,
  `TrimStartDropsSpaces`, `TrimEndDropsSpaces`, `SplitJoin`, `SplitNoSeparator`,
  `SplitAfterPiece`.

- `Text.Join` (`",".join`, digit_fpga_nn/training/export_vivado_coe.py:28 and
  digit_fpga_nn/training/export_weights_int8.py:22, 31): `SplitJoin`, `JoinAppend`,
  `JoinAvoids`, `Coe.CoeLinesJoined`, `HeaderRoundTrip.NumbersOfJoin`.
- `Text.Contains` (`"READY" in buf`, digit_fpga_nn/data/sendToNN.py:79 and
  vitis/mlp/handwritten_testing/batch_send.py:86): `ContainsExtend`,
  `LooseLink.ReadyStays`, `LooseLink.WaitForReady`.
- `Text.RemoveChar` (`replace`,
  digit_fpga_nn/hls_nn/weights/vivado_init/compare_weights.py:26): `RemoveCharSwap`,
  `RemoveCharAppend`, `RemoveAbsentChar`, `CoeRoundTrip.DataLinesFields`.
- `Text.HexValue` and `Text.HexFixed` (`int(x, 16)` and the `:02x`/`:08x` formats,
  digit_fpga_nn/training/export_vivado_coe.py:37, 41 and
  digit_fpga_nn/hls_nn/weights/vivado_init/compare_weights.py:30): `HexValueOfHexFixed`,
  `Coe.Hex8`, `Coe.Hex32`, `CompareWeights.ParseHexAll`.
- `Text.NatToString` (`str(n)`, digit_fpga_nn/training/export_weights_int8.py:22):
  `DecimalValueOfNatToString`, `IntToString`, `ParseIntOfIntToString`.
- `Coe.CoeHeader`, `Coe.CoeLines` and `Coe.CoeText`
  (digit_fpga_nn/training/export_vivado_coe.py:19-32): `Coe.WriteCoe`,
  `Coe.EmptyCoeIsHeader`, `Coe.CoeLinesJoined`, `Coe.CoeLinesAvoid`,
  `CoeRoundTrip.Int8CoeRoundTrip`, `CoeRoundTrip.Int32CoeRoundTrip`.
- `CHeader.RowLines`, `CHeader.Int8MatrixText` and `CHeader.Int32VectorText`
  (digit_fpga_nn/training/export_weights_int8.py:16-32): `CHeader.WriteInt8Matrix`,
  `CHeader.WriteInt32Vector`, `HeaderRoundTrip.NumbersOfRowLines`,
  `HeaderRoundTrip.Int8Shape`, `HeaderRoundTrip.Int32Shape`,
  `HeaderRoundTrip.Int8HeaderRoundTrip`, `HeaderRoundTrip.Int32HeaderRoundTrip`.
- `Memh.MemText` (digit_fpga_nn/training/export_memh.py:13-21): `Memh.WriteMem8`,
  `Memh.WriteMem32`, `Memh.MemLines`, `Memh.MemLinesAreHexLists`.
- `ChunkReceiver.Collect` and `ChunkReceiver.ImageFromStream` (vitis/mlp/app.c:106-117):
  `CollectAgrees`, `ReceiveImageCompletes`, `ImageFromStreamCompletes`,
  `ImageFromStreamConsumes`, `ImageReassembles`, `Receiver.CollectChunks`.
- `ChunkReceiver.Stream`, the frames the host writes back to back
  (vitis/mlp/send_digit_to_fpga.py:40-61): `FramesReassemble`, `ImageReassembles`,
  `Firmware.WritesFormStream`.
- `ChunkSender.AckAt`, the reply to the k-th one-byte read
  (vitis/mlp/send_digit_to_fpga.py:50): `FirstOkMeaning`, `FirstOkAt`, `NoOkWithin`,
  `SendWithRetries`, `Firmware.Heard`.
- `Idx.Field` and `Idx.After`, `struct.unpack(">I", f.read(4))` and `f.read()`
  (digit_fpga_nn/training/load_mnist.py:5-11, 13-19): `Idx.Read4`, `Idx.LoadImages`,
  `Idx.LoadLabels`, `Idx.HeaderReadsBack`, `Idx.ImagesRoundTrip`, `Idx.LabelsRoundTrip`.
- `SendToNN.FirstPredictionIs`, what the reply loop returns
  (digit_fpga_nn/data/sendToNN.py:120-140): `AwaitPrediction`, `SendImageUart`,
  `SendSinglePixel`.
- `BatchSend.BothSeen`, the loop's exit test
  (vitis/mlp/handwritten_testing/batch_send.py:149): `AwaitPair`, `SendImage`,
  `LastWithStays`.

## Left out

- The serial ports, `time.sleep` and the `time.time()` deadlines are not modelled.
  Each read is a scripted sequence instead: acknowledgement replies, text pieces or
  stripped lines. Reaching the deadline is the end of the script. Bytes the script
  would deliver after the deadline are not part of the model.
- The firmware's blocking UART receive is modelled by the `Starved` outcome: the input
  runs out where the board would wait forever. The busy-wait loops on the UART status
  registers are left out.
- `xil_printf` is modelled only for the banner and the `Pred: %d\r\n` line the reply
  depends on, and only for a digit 0..9, which is what the network returns.
- The scripts' `print` output is left out as text. Where a script prints its result, the
  model returns it instead:
  - `ChunkSender.SendBytesToFpga` returns the classified reply, which
    `send_bytes_to_fpga` prints and then returns None (send_digit_to_fpga.py:80-91);
  - `BatchSend.AwaitPair` and `BatchSend.SendImage` return the Pred and Logits lines,
    which batch_send.py:148-150 prints;
  - `CompareWeights.Compare` returns a `Report` that `compare` prints.
- Image preprocessing with OpenCV (`preprocess_digit_image`, `preprocess_mnist_style`)
  is left out: it is floating-point image processing in a foreign library.
- Training, quantisation (`to_int8_with_scale`), the float bias scaling, and the
  `main` functions of the exporters are left out. They use PyTorch and floating point.
  The quantised arrays are inputs to the model.
- The weight headers `mlp.c` includes are not part of this model. The weights are a
  parameter.
- Mlp.Predict: computes over unbounded integers. Int32 overflow of the two layers is
  not modelled. `Mlp.Layer1FitsInt32` shows that layer 1 cannot overflow for int8
  weights and moderate biases; layer 2 has no such bound.
- The `interactive_mode`, `read_responses`, `send_command`, `test_connection` and
  `main` glue of `sendToNN.py` is left out. It is console menu I/O. The single-pixel
  command is kept.
- The IDX loaders of `sendToNN.py` (lines 17-41) are the same logic as
  `load_mnist.py`, and module Idx models both. NumPy's `frombuffer` dtype is not
  modelled beyond bytes.
- UTF-8 decoding with `errors='ignore'` is modelled as given text pieces and lines. The
  decoder itself is left out.
- SendToNN.AwaitPrediction: `int()` is modelled for an optional sign followed by ASCII
  digits, after stripping. Python also accepts underscores between digits and
  non-ASCII digits, and those are not modelled.
- CompareWeights.ParseHexAll: `int(x, 16)` is modelled for unsigned hex digits. A sign,
  a "0x" prefix and underscores are not accepted by the model.
- CompareWeights.LoadCoe: a hex value too large for the target unsigned type is
  modelled as an `OutOfRange` failure. NumPy's own behaviour there (an error or a
  wrapped value, depending on the version) is not modelled.
- CompareWeights.LoadH: `np.array(..., dtype=np.int64)` is modelled without its 64-bit
  limit.
- Regular expressions: `\d` is modelled as ASCII digits only, while Python's also
  matches other Unicode digits. `\s` and `strip()` use the white space `Text.IsSpace`
  lists, which is `str.isspace()`.
- HeaderRoundTrip.Int8ExportsAgree: requires an array name without '/' or '='. The
  exporter accepts any name, but such a name would change what the reader finds.
- LooseLink.SendSlices: sends `data[i:i+32]` for i below 784 only, as the loop does.
  Longer data is cut at 800 bytes, and that is stated rather than prevented.
- The 2-D arrays of the exporters are given flattened in row-major order, or as a
  sequence of rows (`CHeader`). NumPy's `reshape(-1)` and `flatten()` are taken as
  that order.
