/**
 * The frame source: what one call of the capture's `read` yields. Pixels are
 * never interpreted by the pipeline, so an image is an opaque value.
 */
module Capture {

  /** A decoded video frame; its contents only matter to the detector and the encoder. */
  datatype Image = Image(pixels: seq<int>)

  /** Outcome of one `read` on an open capture: no signal, or a frame. */
  datatype Read = NoSignal | Got(image: Image)

  /** The frames among `outcomes`, in the order they were read. */
  function Images(outcomes: seq<Read>): (images: seq<Image>)
    ensures |images| <= |outcomes|
  {
    if outcomes == [] then []
    else
      var last := outcomes[|outcomes| - 1];
      Images(outcomes[..|outcomes| - 1]) + (if last.Got? then [last.image] else [])
  }
}
