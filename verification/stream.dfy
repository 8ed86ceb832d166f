/**
 * The HTTP streaming loop (`generate_frames` inside `process_stream_http` in
 * main.py). Each client gets its own capture and its own frame counter; a
 * failed read is retried at once, and every frame read is counted, run through
 * the detector, stamped, JPEG-encoded at quality 85 and yielded as one
 * multipart chunk.
 *
 * The capture is replaced by the sequence of read outcomes, the detector and
 * the JPEG encoder by function parameters, and the yielded chunks are
 * collected in order.
 */
module Stream {
  import opened Capture
  import opened Annotator
  import opened Framing
  import opened Wrappers

  /** OpenCV's JPEG encoder at the given quality, applied to a frame drawn over with commands. */
  type Encoder = (Image, seq<DrawCommand>, int) -> seq<byte>

  const JpegQuality := 85

  /** The frame counter stamped on every streamed frame. */
  function HttpFrameText(n: nat): DrawCommand
  {
    Text(HttpFrameNumber(n), Point(10, 30), 0.7, White, 2)
  }

  /** One yielded frame: its number, what was read, what was drawn, what was encoded, and the chunk sent. */
  datatype Emitted = Emitted(number: nat, image: Image, overlay: seq<DrawCommand>, jpeg: seq<byte>, chunk: seq<byte>)

  /**
   * The generator run over the read outcomes `outcomes` of one client's
   * capture. When the capture does not open nothing is yielded; otherwise
   * frame k (from 0) of the frames read is yielded as frame number k + 1,
   * always annotated, and `frameCount` ends at the number of frames read.
   */
  method GenerateFrames(isOpen: bool, outcomes: seq<Read>, detector: Detector, encoder: Encoder)
    returns (emitted: seq<Emitted>, frameCount: nat)
    ensures !isOpen ==> emitted == [] && frameCount == 0
    ensures isOpen ==> frameCount == |Images(outcomes)| == |emitted|
    ensures isOpen ==> forall k :: 0 <= k < |emitted| ==>
      var e := emitted[k];
      && e.number == k + 1
      && e.image == Images(outcomes)[k]
      && e.overlay == Annotate(detector(e.image)) + [HttpFrameText(k + 1)]
      && e.jpeg == encoder(e.image, e.overlay, JpegQuality)
      && e.chunk == Chunk(e.jpeg)
  {
    emitted, frameCount := [], 0;
    if !isOpen {
      return;
    }
    var i := 0;
    while i < |outcomes|
      invariant 0 <= i <= |outcomes|
      invariant frameCount == |Images(outcomes[..i])| == |emitted|
      invariant forall k :: 0 <= k < |emitted| ==>
        var e := emitted[k];
        && e.number == k + 1
        && e.image == Images(outcomes[..i])[k]
        && e.overlay == Annotate(detector(e.image)) + [HttpFrameText(k + 1)]
        && e.jpeg == encoder(e.image, e.overlay, JpegQuality)
        && e.chunk == Chunk(e.jpeg)
    {
      assert outcomes[..i + 1][..i] == outcomes[..i];
      if outcomes[i].Got? {
        var image := outcomes[i].image;
        frameCount := frameCount + 1;
        var overlay := Annotate(detector(image)) + [HttpFrameText(frameCount)];
        var jpeg := encoder(image, overlay, JpegQuality);
        emitted := emitted + [Emitted(frameCount, image, overlay, jpeg, PartHead + jpeg + Crlf)];
      }
      i := i + 1;
    }
    assert outcomes[..i] == outcomes;
  }

  /** The bytes the client receives: the yielded chunks back to back. */
  function Received(emitted: seq<Emitted>): seq<byte>
  {
    if emitted == [] then [] else emitted[0].chunk + Received(emitted[1..])
  }

  /** The JPEGs encoded, in yield order. */
  function Jpegs(emitted: seq<Emitted>): seq<seq<byte>>
  {
    seq(|emitted|, k requires 0 <= k < |emitted| => emitted[k].jpeg)
  }

  /**
   * The client gets back exactly the JPEGs encoded, in order, by splitting the
   * received bytes at the multipart delimiters, provided no JPEG contains the
   * delimiter.
   */
  lemma {:induction false} ReceivedSplitsIntoJpegs(emitted: seq<Emitted>)
    requires forall k :: 0 <= k < |emitted| ==> emitted[k].chunk == Chunk(emitted[k].jpeg)
    requires forall k :: 0 <= k < |emitted| ==> NoDelimiter(emitted[k].jpeg)
    ensures SplitBody(Received(emitted)) == Some(Jpegs(emitted))
  {
    ReceivedIsBody(emitted);
    SplitBodyRoundTrip(Jpegs(emitted));
  }

  lemma {:induction false} ReceivedIsBody(emitted: seq<Emitted>)
    requires forall k :: 0 <= k < |emitted| ==> emitted[k].chunk == Chunk(emitted[k].jpeg)
    ensures Received(emitted) == Body(Jpegs(emitted))
    decreases |emitted|
  {
    if emitted != [] {
      ReceivedIsBody(emitted[1..]);
      assert Jpegs(emitted)[1..] == Jpegs(emitted[1..]);
    }
  }
}
