# PyIA image classifier — Dafny model

PyIA trains a two-class image classifier from two directories of sample
images and answers classification requests, either interactively (`ia.py`)
or as a TCP server on port 4321 (`server.py`). This project models the
deterministic core both programs share:

- **Feature extraction** (`process_image`, module `Features`): an RGB image
  becomes a normalised colour histogram. Each channel value is put into one of
  `blocks` buckets (default 4), the three buckets are combined into one index
  `r + g*blocks + b*blocks^2`, pixels are counted per index, and every count is
  divided by the number of pixels.
- **Training-set assembly** (`process_image_file`, `process_directory` and the
  first half of `train`, module `Training`): both paths must be directories,
  the files of each walk are turned into feature vectors, failed extractions are
  skipped, and `data = A ++ B` with `target = [0]*|A| ++ [1]*|B|` is built for
  the classifier's `fit`.
- **Request framing** (server.py's inner read loop, module `Framing`): 1024-byte
  `recv`s are appended until the first shorter chunk.
- **Serving** (module `Service`): prediction 0 answers `training_path_a`,
  anything else `training_path_b`; a failed request is closed without a reply
  and the accept loop goes on with the same classifier; ia.py's console loop
  answers line by line until an empty line.

Python values that may be `None` are `Option`s; calls that may raise an
exception that escapes are `Result`s (module `Wrappers`). The classifier's
`predict`, the image codec and the directory walk are inputs: `predict` is a
function `Vec -> int`, decoding is a function `seq<byte> -> Option<Image>`
(`None` where PIL raises `IOError`), a walk is a sequence of `ImageFile`s in
`os.walk` order, and `os.path.isdir` is a boolean per path. The socket is the
sequence of chunks successive `recv(1024)` calls return, an empty chunk being
the peer's close.

Behaviour of the code worth knowing, which the model follows:

- The comment in `train` contradicts the code: it says class A is labelled `1` and class B `0`; the
  code labels A with `0` and B with `1`, and so does the model.
- An RGB image without pixels is not rejected: `x/pixel_count` raises
  `ZeroDivisionError`. `process_image_file` catches only `IOError`, so the
  exception leaves `process_directory` and aborts `train`; in the server it
  is caught per connection. The model returns `Failure(ZeroDivision)`.
- `train` has no "empty class" check of its own: it hands whatever it built to
  `fit`.
- A non-RGB or undecodable image is not reported as such: `None` goes into
  `predict`, which raises, and the request gets no answer.

The bucket is modelled as `(p*blocks)/256` with integer division;
`Features.BucketIsTruncatedQuotient` proves it equal to the source's
`int(p/(256/blocks))` evaluated over exact reals, for every positive `blocks`.
With the default `blocks = 4` the source's float division is exact too, since
it divides by 64.

## Model

| member | source | states |
|---|---|---|
| Features.Bucket | server.py:55-57 | the bucket of every channel value 0..255 lies in `[0, blocks)` |
| Features.BucketRange | ia.py:62-64 | value `p` is in bucket `k` exactly when `k*256 <= p*blocks < (k+1)*256`: the buckets are `blocks` equal-width sub-ranges of 0..255 |
| Features.BucketIsTruncatedQuotient | ia.py:62-64 | the integer bucket equals `int(p/(256/blocks))` evaluated over exact reals, for every positive `blocks` |
| Features.CellIndex | ia.py:65-66 | the combined index is below `blocks^3`, so `feature[idx] += 1` never goes out of range |
| Features.CellIndexDecodes | server.py:58 | the red, green and blue buckets can each be read back from the combined index |
| Features.CellIndexInjective | ia.py:65 | two pixels share a histogram cell exactly when they share all three buckets |
| Features.BlackIsFirstCell | ia.py:59-65 | with 4 blocks there are 64 cells and pixel (0,0,0) counts in cell 0 |
| Features.WhiteIsLastCell | ia.py:62-65 | with 4 blocks 255 is in bucket 3 and pixel (255,255,255) counts in cell 63 |
| Features.Counts | ia.py:59-67 | after the pixel loop there are `blocks^3` counters and they add up to the number of pixels |
| Features.CountsAreCellSizes | ia.py:61-66 | each counter holds the number of pixels whose combined index is that cell |
| Features.Normalize | ia.py:68 | each entry is its counter divided by the pixel count, none is negative, and the entries add up to the counters' sum over the pixel count |
| Features.ProcessImage | ia.py:46-68 | `None` exactly for a non-RGB image; a division fault exactly for an RGB image without pixels; otherwise `blocks^3` non-negative entries summing to 1, entry `i` being the share of pixels in cell `i` |
| Features.ProcessImageLoop | server.py:50-61 | the in-place counting loop followed by the division returns exactly what `ProcessImage` specifies |
| Training.ProcessDecoded | server.py:31-37 | `process_recv_image` gives `None` exactly when decoding fails or the image is not RGB, raises the division error exactly for an RGB image without pixels, and otherwise gives the decoded image's normalised histogram: entry `i` is the share of its pixels in cell `i` |
| Training.ProcessImageFile | ia.py:30-44 | the read error escapes exactly for a file that cannot be opened; the division error exactly for a readable RGB image without pixels; `None` exactly when the file does not decode or is not RGB; otherwise the normalised histogram of the decoded image |
| Training.TruthyIsSome | ia.py:25-26 | for an extractor result, `if img_feature:` holds exactly when the result is not `None` |
| Training.ProcessDirectory | ia.py:20-27 | the walk succeeds exactly when no file raises; it then keeps at most one vector per file, each a feature vector |
| Training.ProcessDirectoryFirstFault | server.py:14-19 | when the walk raises, the exception is that of the first file that raises |
| Training.ProcessDirectoryMembers | ia.py:21-26 | a vector is kept exactly when some file of the walk yields it |
| Training.ProcessDirectoryAppend | server.py:12-20 | splitting the walk splits the result: the vectors keep walk order |
| Training.ProcessDirectoryKeepsAll | ia.py:21-26 | when every file yields a vector, the result holds them all, one per file, in walk order |
| Training.Labels | ia.py:96 | the label list has `na + nb` entries, `0` exactly at the first `na` positions and `1` exactly after them |
| Training.Assemble | ia.py:93-96 | `data` is class A's vectors then class B's, `target` runs parallel with `0` for every A sample and `1` for every B sample, and it holds as many zeros as A has vectors and as many ones as B has |
| Training.Train | ia.py:86-96 | a non-directory path fails before any file is processed (A checked first); a raising walk A reports A's exception, otherwise a raising walk B reports B's; training data is built exactly when neither walk raises, as A's vectors then B's, labelled `0` exactly on A's positions and `1` exactly on B's |
| Framing.Frame | server.py:116-120 | the read loop completes exactly when some received chunk is shorter than 1024; otherwise it is still waiting in `recv` |
| Framing.FrameIsPrefix | server.py:117-120 | a completed request is the concatenation of the chunks up to and including the first short one |
| Framing.ReadRequest | server.py:113-120 | the read loop as written completes exactly when `Frame` does and returns the same bytes |
| Framing.FrameLength | server.py:117-120 | every chunk before the terminating one is full, so a request ending at chunk `k` has `1024*k` bytes plus the length of that last chunk, which is below 1024 |
| Framing.FrameIgnoresLaterChunks | server.py:119-120 | chunks after the first short one are never part of the request |
| Framing.Segments | client.py:14 | when the whole payload is sent and every `recv` is filled as far as the data allows, it arrives as chunks of exactly 1024 bytes followed by one chunk holding the remaining `length mod 1024` bytes (empty for a whole number of chunks), and these concatenate back to the payload |
| Framing.FrameSegments | server.py:116-120 | a payload delivered as full chunks followed by a short remainder or the peer's close is framed back exactly |
| Framing.FullChunksNeverComplete | client.py:14-15 | a non-empty payload of a whole number of 1024-byte chunks from a client that keeps the connection open never completes the request |
| Service.Respond | server.py:126-129 | the reply is one of the two training paths, and when they differ it is `training_path_a` exactly when the prediction is 0 |
| Service.Classify | ia.py:133-137 | an answer exists exactly when extraction produced a vector; it is one of the two paths, path A exactly when `predict` gives 0 |
| Service.HandleConnection | server.py:113-137 | one pass of the loop body: it waits exactly when no short chunk arrived, closes without a reply exactly when the framed bytes are not a non-empty RGB image, and any reply is one of the two training paths |
| Service.HandleConnectionOutcome | server.py:113-129 | a connection waits exactly when no short chunk arrived, is answered exactly when the framed bytes decode to a non-empty RGB image, and the answer is path A exactly when the prediction on that image's histogram is 0 |
| Service.AcceptLoop | server.py:107-137 | every accepted connection is handled by the same loop body with the same classifier, in accept order; a failed one does not stop the loop, and only a connection still waiting in `recv` holds it |
| Service.Serve | server.py:107-137 | the `while True` loop answers each connection in accept order with the same handler and classifier; every connection before the last one served completed its read, and the loop stops only at one still waiting in `recv` |
| Service.FaultIsolation | server.py:130-137 | an undecodable request is closed without a reply and the later connections are served as if it had not arrived |
| Service.ConsoleSession | ia.py:127-141 | ia.py answers each non-empty input line in order with `process_image_file` of the named file, with no answer where an exception was printed, and stops at the first empty line |

## Left out

- Persistence: loading the pickled `classifier` file at startup, saving it in
  `kb_interrupt_handler`, and the choice between loading and training. These are
  serialisation and signal handling.
- The classifier itself: `svm.SVC(gamma=0.001, C=100.).fit` and `predict` are
  opaque; the model stops at the training set handed to `fit` and takes
  `predict` as a parameter. Failures inside `fit` are not modelled.
- Sockets: `bind`, `listen`, `accept`, `send`, `close`, transport errors and
  `print`. The request is the chunk sequence; the reply is the `Replied` payload.
- PIL: `Image.open` and lazy decoding errors are folded into the `decode`
  parameter returning `None`.
- `os.walk`: traversal order and symbolic-link handling are the given file
  sequence; `os.path.isdir` is a boolean per path.
- Command-line checking and the usage message; the unused `print_metrics`
  argument; `client.py` beyond the way its payload reaches the server.
- Features.ProcessImage: entries and their sum are exact reals; Python's float
  division makes the sum 1 only up to rounding.
- Network delivery: `client.py` uses `send`, which may transmit only part of the
  payload, and `recv(1024)` may return fewer bytes while the payload is still
  arriving. Either way the server stops at that short chunk and processes a
  truncated request; `Frame` and `FrameIsPrefix` describe this, while
  `Segments` and `FrameSegments` cover only full delivery with every `recv`
  filled as far as the data allows.
- Service.AcceptLoop: a connection that never completes is modelled as the end of
  the served sequence; the keyboard interrupt that would end it is not modelled.
- Service.ConsoleSession: running out of input (`EOFError`) ends the session
  like an empty line would after saving the classifier; the save is not modelled.
