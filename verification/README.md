# YOLO stream processor: frame pipeline model

This project models the core of a small video front-end: `YOLOStreamProcessor` in
`main.py`. The class pulls frames from a live stream, runs a person detector on them,
draws the results over the frame, and sends the annotated video to one of two sinks.
The first is a local window (`process_stream_window`). The second is an HTTP
`multipart/x-mixed-replace` stream (`generate_frames` inside `process_stream_http`).

The detector, the capture, the window, the keyboard and the JPEG encoder are foreign
libraries. Each one becomes an input of the model:

- **Detector.** A function parameter `Detector` that returns the model's result list
  for a frame. Each result carries an optional list of boxes.
- **Capture.** The sequence of read outcomes the loop would observe: a frame, or no
  signal. In the window loop each frame also carries the key code the 1 ms poll
  returns after the frame is shown.
- **Drawing.** Pixel drawing is replaced by the sequence of drawing commands issued,
  in issue order.
- **Encoder.** `cv2.imencode` is a function parameter that receives the frame, its
  draw commands and the quality.
- **Images.** An image is an opaque value.

Modules:

- `Annotator` (`annotator.dfy`) models `detect_people`:
  - keeps class-0 detections in detector order;
  - picks a confidence tier with strict thresholds (`> 0.8` green, `> 0.6` yellow,
    otherwise orange);
  - draws a box, a label background and a label for each person;
  - finally draws one `People: n` counter.
- `Window` (`window.dfy`) models the window loop as a fold over ticks:
  - a failed read waits and is not counted;
  - a frame is counted and is annotated only when its number is even;
  - the key `q` (low byte 113) ends the loop;
  - the key `s` (low byte 115) saves a screenshot and the loop continues.
- `Framing` (`framing.dfy`) models the byte framing of one streamed chunk. Each
  chunk is `--frame` CRLF `Content-Type: image/jpeg` CRLF CRLF, then the JPEG, then
  CRLF: the boundary-delimiter form of section 5.1.1 of RFC 2046 with boundary
  `frame`. The module also defines a consumer that splits a body at the delimiter
  CRLF `--frame`.
- `Stream` (`stream.dfy`) models the HTTP generator: every frame read is counted,
  annotated, stamped, encoded at quality 85 and framed.
- `Capture` (`capture.dfy`) holds the read outcome type. `Wrappers` (`wrappers.dfy`)
  holds `Option`.

Each call of `GenerateFrames` starts its own frame counter at 0. Nothing is shared
between calls, so two HTTP clients see independent numbering by construction.

Two details of the code matter here:

- **Quitting with `q`.** The loop exits by `break` (`main.py:47`), so `self.running`
  stays true after the loop. `running` is therefore not modelled as a state that `q` clears.
  `Outcome.Ran.released` records that the capture is released after a quit.
- **Failed open.** The window function returns (`main.py:19`) before `cap.release()`
  and `cv2.destroyAllWindows()`. So a failed open releases nothing: it yields
  `ConnectFailed`, with no passes.

## Model

| member | source | states |
|---|---|---|
| Annotator.TierOf | main.py:146-151 | The tier is high iff confidence > 0.8, medium iff 0.6 < confidence <= 0.8, low iff confidence <= 0.6; the boundary values fall to the lower tier |
| Annotator.TierMonotonic | main.py:146-151 | A higher confidence never gets a lower tier |
| Annotator.PersonsExact | main.py:141-143 | A detection is kept iff it is in the detector output and its class id is 0 |
| Annotator.PersonsAppend | main.py:133-143 | Filtering distributes over concatenation, so persons keep detector order |
| Annotator.NonPersonInvisible | main.py:141-143 | Inserting a non-person detection anywhere leaves the kept persons, hence all boxes, labels and the count, unchanged |
| Annotator.PersonCountIsClassCount | main.py:131-143 | The number of persons kept equals the number of positions of the detector output whose class id is 0 |
| Annotator.AllDetectionsMembers | main.py:133-136 | A detection is among the boxes walked iff some result of the detector output reports it; a result whose boxes are absent contributes none |
| Annotator.PersonMarks | main.py:145-163 | One person gets three commands: a 2-px box between its corners, green iff confidence > 0.8, yellow iff 0.6 < confidence <= 0.8, orange iff confidence <= 0.6; a label background in that same colour from y1-25 down to the box top y1; then black label text at the box's left edge with its baseline inside that background |
| Annotator.MarksTriples | main.py:136-163 | The marks are issued person by person in detector order: command triple k is exactly the three marks of person k |
| Annotator.Annotate | main.py:127-169 | The commands are 3 per person plus one; the last is the `People: n` counter with n the number of persons; the counter appears nowhere else; command triple k is person k's marks |
| Annotator.DetectPeople | main.py:131-167 | The nested loop over results and boxes yields a person count equal to the number of class-0 detections and issues the person marks in detector order, followed by the counter |
| Annotator.NoDetectionsDrawsZeroCounter | main.py:165-167 | With no boxes at all, the only command is the `People: 0` counter |
| Annotator.OneConfidentPerson | main.py:145-167 | One person at (10,10,50,90) with confidence 0.95 gives a green box, a green label background from y -15 to 10, a black label and `People: 1` |
| Window.KeyCode | main.py:45 | The masked key code is the unique value in 0..255 congruent to the raw code modulo 256, so the "no key" code -1 becomes 255 and never matches `q` or `s` |
| Window.DisplayOverlay | main.py:34-43 | A shown frame keeps its number and image; its overlay ends with the `Frame: n` stamp, and before the stamp holds the detector's annotation iff n is even, nothing otherwise |
| Window.Loop | main.py:25-51 | The loop makes at most one pass per tick, at least one pass when it quits, exactly one per tick when it does not, and `frame_count` grows by at most one per pass |
| Window.LoopStopsAtFirstQuit | main.py:25-51 | The loop ends by quitting iff some tick's key low byte is `q`, and then its last pass answers the first such tick, so `s` and other keys never stop it |
| Window.LoopCountsFrames | main.py:25-32 | Final `frame_count` = start + number of successful reads among the ticks consumed; failed reads do not count |
| Window.LoopPassesFollowTicks | main.py:26-51 | Pass k answers tick k: a failed read only waits; a frame is displayed as number start + frames read up to and including it, and saved iff its key is `s` |
| Window.LoopDetectsEvenFrames | main.py:34-38 | The detector runs on frame_count/2 - start/2 passes, i.e. N/2 (rounded down) of N frames when starting from 0 |
| Window.ProcessStreamWindow | main.py:13-55 | A failed open gives no run; otherwise frame_count equals the frames read, the detector ran on half of them (rounded down), the run stops exactly at the first `q`, and the capture is released iff it quit |
| Window.SignalLossThenFrame | main.py:25-43 | Three lost reads then a frame give three waits, then frame 1, shown without detection and with frame_count 1 |
| Framing.Chunk | main.py:89-90 | A chunk is the JPEG wrapped whole: it opens with the part head `--frame` CRLF `Content-Type: image/jpeg` CRLF CRLF, carries the JPEG bytes unchanged right after it, and closes with CRLF, with nothing else added |
| Framing.Unframe | main.py:89-90 | Stripping the fixed head and trailing CRLF succeeds exactly on chunks, and it returns the bytes that chunk was made from |
| Framing.UnframeChunk | main.py:89-90 | Round trip: unframing the chunk of a JPEG gives that JPEG back unchanged |
| Framing.SplitBodyRoundTrip | main.py:89-95 | Splitting the concatenated chunks at the delimiter CRLF `--frame` yields every JPEG in order, provided none contains the delimiter |
| Stream.GenerateFrames | main.py:65-90 | A failed open yields nothing. Otherwise frame_count ends at the number of frames read, and each frame read k yields one item: number k+1, the detector's annotation plus the HTTP frame label, a JPEG at quality 85, and the chunk framing that JPEG |
| Stream.ReceivedIsBody | main.py:89-90 | The bytes a client receives are the framed JPEGs back to back |
| Stream.ReceivedSplitsIntoJpegs | main.py:89-95 | A client splitting the received bytes at the delimiters gets back exactly the JPEGs encoded, in order, provided no JPEG contains CRLF `--frame` |

## Left out

- The detector is not modelled. YOLO inference with confidence threshold 0.4 and IoU
  threshold 0.5 is a foreign model, so its output enters as the `Detector` parameter.
- Pixel drawing is not modelled. `cv2.rectangle`, `cv2.putText` and `cv2.getTextSize`
  are foreign calls. A label background records its caption, and its width is left
  to the text measure of that caption.
- Annotator.PersonMarks: box corners are taken as integers already. The source
  computes `int(y1 - 25)` and `int(y1 - 5)` on floats. For a non-integer `y1` below 25
  this truncates toward zero differently from `int(y1) - 25`.
- The text of the labels is not modelled. `"Person {confidence:.2f}"` and the counter
  texts are float and integer formatting, so they are captions that carry the value.
- Confidence is a `real` used only in comparisons. Floating-point rounding is not
  modelled.
- `cv2.imshow`, the `time.sleep(0.1)` on signal loss and the `print` log lines are
  I/O. They appear only as the `Displayed` and `Waited` passes.
- The screenshot file is not modelled. Its name `detection_<unix time>.jpg` and the
  `cv2.imwrite` call are a clock read and file I/O, so a screenshot appears only as
  the `saved` flag.
- The loops are unbounded in the source. The model runs them over a finite prefix of
  ticks or reads. When the prefix is used up without `q`, the loop is still running.
  Client disconnect is the end of the prefix.
- The `ret` flag of `cv2.imencode` is ignored by the source. The encoder is taken to
  return bytes.
- The Flask app, the `/` index page and `threaded=True` serving are HTTP plumbing and
  host-library concurrency. The `/stream` content type is kept only as the
  `StreamMimeType` constant.
- The startup prompt, model loading and top-level exception handling are
  process-level I/O glue.
- Framing.SplitBodyRoundTrip: needs JPEGs that do not contain CRLF `--frame`. RFC 2046
  requires this, but the source never checks it, and a JPEG containing those bytes
  would be split early by a consumer.
- Stream.ReceivedSplitsIntoJpegs: needs JPEGs that do not contain CRLF `--frame`, for
  the same reason as `Framing.SplitBodyRoundTrip`. Nothing in the source prevents an
  encoded frame from containing those bytes.
