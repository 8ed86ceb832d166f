/**
 * The window-mode loop (`process_stream_window` in main.py). Each pass reads
 * one frame; a failed read waits and retries without counting; a frame is
 * counted, run through the detector only when its number is even, stamped
 * with its number, shown, and then the key poll decides: `q` leaves the loop,
 * `s` saves a screenshot and carries on, anything else carries on.
 *
 * The capture, the window and the keyboard are replaced by the sequence of
 * ticks the loop would observe; the detector is a function parameter.
 */
module Window {
  import opened Capture
  import opened Annotator

  /** What one pass of the loop observes. */
  datatype Tick =
      /** The read failed. */
    | Lost
      /** The read gave `image`; `rawKey` is what the key poll returns after it is shown. */
    | Frame(image: Image, rawKey: int)

  const QuitKey := 113        // ord('q')
  const ScreenshotKey := 115  // ord('s')

  /**
   * The low byte of the key code polled for 1 ms. Masking in Python treats a
   * negative code (-1, no key) as two's complement, which is the non-negative
   * remainder modulo 256.
   */
  function KeyCode(rawKey: int): (k: int)
    ensures 0 <= k < 256
    ensures (rawKey - k) % 256 == 0
  {
    rawKey % 256
  }

  predicate IsQuit(t: Tick)
  {
    t.Frame? && KeyCode(t.rawKey) == QuitKey
  }

  predicate IsScreenshot(t: Tick)
  {
    t.Frame? && KeyCode(t.rawKey) == ScreenshotKey
  }

  /** What one pass of the loop does. */
  datatype Pass =
      /** "No signal" logged, slept 0.1 s, frame count kept. */
    | Waited
      /** Frame `number` drawn over with `overlay` and shown; `saved` if a screenshot of it was written. */
    | Displayed(number: nat, image: Image, detected: bool, overlay: seq<DrawCommand>, saved: bool)

  /** The frame counter stamped on every shown frame. */
  function FrameText(n: nat): DrawCommand
  {
    Text(FrameNumber(n), Point(10, 30), 0.7, White, 2)
  }

  /** Frame `n` as shown: annotated by the detector when `n` is even, a plain copy otherwise. */
  function Display(n: nat, image: Image, detector: Detector, saved: bool): Pass
  {
    if n % 2 == 0 then Displayed(n, image, true, Annotate(detector(image)) + [FrameText(n)], saved)
    else Displayed(n, image, false, [FrameText(n)], saved)
  }

  /**
   * A shown frame keeps its number, image and save flag; its overlay ends with
   * the frame stamp, and before the stamp holds the detector's annotation when
   * the number is even and nothing otherwise.
   */
  lemma DisplayOverlay(n: nat, image: Image, detector: Detector, saved: bool)
    ensures var p := Display(n, image, detector, saved);
      && p.Displayed? && p.number == n && p.image == image && p.saved == saved
      && (p.detected <==> n % 2 == 0)
      && |p.overlay| >= 1 && p.overlay[|p.overlay| - 1] == FrameText(n)
      && p.overlay[..|p.overlay| - 1] == (if p.detected then Annotate(detector(image)) else [])
  {
  }

  /** The passes made so far, the `frame_count` reached, and whether `q` ended the loop. */
  datatype Run = Run(passes: seq<Pass>, frameCount: nat, quit: bool)

  /** The `while self.running` loop from `frame_count == count` over `ticks`. */
  function Loop(ticks: seq<Tick>, count: nat, detector: Detector): (r: Run)
    ensures |r.passes| <= |ticks|
    ensures r.quit ==> 1 <= |r.passes|
    ensures !r.quit ==> |r.passes| == |ticks|
    ensures count <= r.frameCount <= count + |r.passes|
    decreases |ticks|
  {
    if ticks == [] then Run([], count, false)
    else
      match ticks[0]
      case Lost =>
        var rest := Loop(ticks[1..], count, detector);
        rest.(passes := [Waited] + rest.passes)
      case Frame(image, rawKey) =>
        var n := count + 1;
        var key := KeyCode(rawKey);
        var pass := Display(n, image, detector, key == ScreenshotKey);
        if key == QuitKey then Run([pass], n, true)
        else
          var rest := Loop(ticks[1..], n, detector);
          rest.(passes := [pass] + rest.passes)
  }

  /** Number of successful reads among `ticks`. */
  function FramesRead(ticks: seq<Tick>): nat
  {
    if ticks == [] then 0 else (if ticks[0].Frame? then 1 else 0) + FramesRead(ticks[1..])
  }

  /** Number of passes on which the detector ran. */
  function Detections(passes: seq<Pass>): nat
  {
    if passes == [] then 0
    else (if passes[0].Displayed? && passes[0].detected then 1 else 0) + Detections(passes[1..])
  }

  predicate NoQuit(ticks: seq<Tick>)
  {
    forall i :: 0 <= i < |ticks| ==> !IsQuit(ticks[i])
  }

  lemma FramesReadCons(t: Tick, ticks: seq<Tick>, k: nat)
    requires k <= |ticks|
    ensures FramesRead(([t] + ticks)[..k + 1]) == (if t.Frame? then 1 else 0) + FramesRead(ticks[..k])
  {
    assert ([t] + ticks)[..k + 1] == [t] + ticks[..k];
    assert ([t] + ticks[..k])[1..] == ticks[..k];
  }

  /** One pass of the loop that does not quit, followed by the loop over the remaining ticks. */
  lemma LoopStep(ticks: seq<Tick>, count: nat, detector: Detector)
    requires ticks != [] && !IsQuit(ticks[0])
    ensures var t := ticks[0];
      var n := if t.Frame? then count + 1 else count;
      var r := Loop(ticks, count, detector);
      var r' := Loop(ticks[1..], n, detector);
      && r.frameCount == r'.frameCount && r.quit == r'.quit
      && |r.passes| == |r'.passes| + 1
      && r.passes[1..] == r'.passes
      && r.passes[0] == (if t.Lost? then Waited else Display(n, t.image, detector, IsScreenshot(t)))
  {
  }

  /** The first pass answers the first tick, whether or not it quits. */
  lemma LoopFirstPass(ticks: seq<Tick>, count: nat, detector: Detector)
    requires ticks != []
    ensures var t := ticks[0];
      Loop(ticks, count, detector).passes[0]
        == if t.Lost? then Waited else Display(count + 1, t.image, detector, IsScreenshot(t))
  {
  }

  lemma FramesReadFirst(ticks: seq<Tick>)
    requires ticks != []
    ensures FramesRead(ticks[..1]) == if ticks[0].Frame? then 1 else 0
  {
    assert ticks[..1][1..] == [];
  }

  /** A later pass of the loop is a pass of the loop over the remaining ticks. */
  lemma LoopLaterPass(ticks: seq<Tick>, count: nat, detector: Detector, k: nat)
    requires 0 < k < |Loop(ticks, count, detector).passes|
    ensures var c' := if ticks[0].Frame? then count + 1 else count;
      && k - 1 < |Loop(ticks[1..], c', detector).passes|
      && Loop(ticks, count, detector).passes[k] == Loop(ticks[1..], c', detector).passes[k - 1]
      && ticks[k] == ticks[1..][k - 1]
  {
    LoopStep(ticks, count, detector);
  }

  lemma DetectionsCons(p: Pass, passes: seq<Pass>)
    ensures Detections([p] + passes) == (if p.Displayed? && p.detected then 1 else 0) + Detections(passes)
  {
    assert ([p] + passes)[1..] == passes;
  }

  /**
   * The loop stops exactly at the first `q`: it makes one pass per tick up to
   * and including the first tick whose key is `q`, and runs through every tick
   * when there is none.
   */
  lemma {:induction false} LoopStopsAtFirstQuit(ticks: seq<Tick>, count: nat, detector: Detector)
    ensures var r := Loop(ticks, count, detector);
      && (r.quit <==> !NoQuit(ticks))
      && (r.quit ==> IsQuit(ticks[|r.passes| - 1]) && NoQuit(ticks[..|r.passes| - 1]))
    decreases |ticks|
  {
    if ticks != [] {
      var t := ticks[0];
      var rest := ticks[1..];
      var r := Loop(ticks, count, detector);
      if IsQuit(t) {
        assert |r.passes| == 1;
        assert ticks[..0] == [];
      } else {
        var c' := if t.Frame? then count + 1 else count;
        LoopStopsAtFirstQuit(rest, c', detector);
        var r' := Loop(rest, c', detector);
        assert |r.passes| == |r'.passes| + 1 && r.quit == r'.quit;
        assert forall i :: 0 < i < |ticks| ==> ticks[i] == rest[i - 1];
        if r.quit {
          assert ticks[..|r.passes| - 1] == [t] + rest[..|r'.passes| - 1];
        }
      }
    }
  }

  /**
   * `frame_count` grows by one per successful read and stays put on a failed
   * one: after the loop it is `count` plus the frames read over the passes made.
   */
  lemma {:induction false} LoopCountsFrames(ticks: seq<Tick>, count: nat, detector: Detector)
    ensures |Loop(ticks, count, detector).passes| <= |ticks|
    ensures var r := Loop(ticks, count, detector);
      r.frameCount == count + FramesRead(ticks[..|r.passes|])
    decreases |ticks|
  {
    var r := Loop(ticks, count, detector);
    if ticks == [] {
      assert ticks[..0] == [];
    } else {
      var t := ticks[0];
      var rest := ticks[1..];
      assert ticks == [t] + rest;
      if IsQuit(t) {
        assert ticks[..1] == [t];
        assert FramesRead([t]) == 1 by { assert [t][1..] == []; }
      } else {
        var c' := if t.Frame? then count + 1 else count;
        LoopCountsFrames(rest, c', detector);
        var r' := Loop(rest, c', detector);
        assert |r.passes| == |r'.passes| + 1 && r.frameCount == r'.frameCount;
        FramesReadCons(t, rest, |r'.passes|);
      }
    }
  }

  /**
   * Pass k of the loop answers tick k: a failed read waits, and a frame is
   * displayed under the number `count` plus the frames read up to and
   * including it, saved iff its key is `s`.
   */
  lemma {:induction false} LoopPassesFollowTicks(ticks: seq<Tick>, count: nat, detector: Detector, k: nat)
    requires k < |Loop(ticks, count, detector).passes|
    ensures k < |ticks|
    ensures ticks[k].Lost? ==> Loop(ticks, count, detector).passes[k] == Waited
    ensures ticks[k].Frame? ==>
      Loop(ticks, count, detector).passes[k]
        == Display(count + FramesRead(ticks[..k + 1]), ticks[k].image, detector, IsScreenshot(ticks[k]))
    decreases |ticks|
  {
    var r := Loop(ticks, count, detector);
    var t := ticks[0];
    var rest := ticks[1..];
    if k == 0 {
      LoopFirstPass(ticks, count, detector);
      FramesReadFirst(ticks);
    } else {
      var c' := if t.Frame? then count + 1 else count;
      LoopLaterPass(ticks, count, detector, k);
      LoopPassesFollowTicks(rest, c', detector, k - 1);
      FramesReadCons(t, rest, k);
      assert ticks == [t] + rest;
    }
  }

  /**
   * Counting from `count`, the detector runs once per even frame number
   * reached; from 0 that is half the frames read, rounded down.
   */
  lemma {:induction false} LoopDetectsEvenFrames(ticks: seq<Tick>, count: nat, detector: Detector)
    ensures var r := Loop(ticks, count, detector);
      Detections(r.passes) == r.frameCount / 2 - count / 2
    decreases |ticks|
  {
    if ticks != [] {
      var t := ticks[0];
      var r := Loop(ticks, count, detector);
      if IsQuit(t) {
        assert r.passes == [r.passes[0]];
        DetectionsCons(r.passes[0], []);
      } else {
        var c' := if t.Frame? then count + 1 else count;
        LoopStep(ticks, count, detector);
        LoopDetectsEvenFrames(ticks[1..], c', detector);
        assert r.passes == [r.passes[0]] + r.passes[1..];
        DetectionsCons(r.passes[0], r.passes[1..]);
      }
    }
  }

  /** Result of one call: the capture did not open, or the loop ran. */
  datatype Outcome =
    | ConnectFailed
      /** `released`: the capture was released and the window destroyed after the loop ended. */
    | Ran(passes: seq<Pass>, frameCount: nat, quit: bool, released: bool)

  /**
   * `process_stream_window`: when the capture does not open it returns before
   * any read; otherwise the loop starts with `frame_count` 0 and, once `q`
   * ends it, the capture is released.
   */
  function ProcessStreamWindow(isOpen: bool, ticks: seq<Tick>, detector: Detector): (o: Outcome)
    ensures o.ConnectFailed? <==> !isOpen
    ensures o.Ran? ==> |o.passes| <= |ticks|
    ensures o.Ran? ==>
      && o.frameCount == FramesRead(ticks[..|o.passes|])
      && Detections(o.passes) == o.frameCount / 2
      && (o.quit <==> !NoQuit(ticks))
      && (o.quit ==> 1 <= |o.passes| && IsQuit(ticks[|o.passes| - 1]) && NoQuit(ticks[..|o.passes| - 1]))
      && (!o.quit ==> |o.passes| == |ticks|)
      && o.released == o.quit
  {
    if !isOpen then ConnectFailed
    else
      var r := Loop(ticks, 0, detector);
      LoopStopsAtFirstQuit(ticks, 0, detector);
      LoopCountsFrames(ticks, 0, detector);
      LoopDetectsEvenFrames(ticks, 0, detector);
      Ran(r.passes, r.frameCount, r.quit, r.quit)
  }

  /** Three lost reads then a frame: three waits, and the frame is number 1, shown as read. */
  lemma SignalLossThenFrame(image: Image, detector: Detector)
    ensures var o := ProcessStreamWindow(true, [Lost, Lost, Lost, Frame(image, -1)], detector);
      && o.Ran?
      && o.passes == [Waited, Waited, Waited, Displayed(1, image, false, [FrameText(1)], false)]
      && o.frameCount == 1
      && !o.quit
  {
    var shown := Displayed(1, image, false, [FrameText(1)], false);
    assert Loop([Frame(image, -1)], 0, detector) == Run([shown], 1, false) by {
      assert [Frame(image, -1)][1..] == [];
    }
    assert Loop([Lost, Frame(image, -1)], 0, detector) == Run([Waited, shown], 1, false) by {
      assert [Lost, Frame(image, -1)][1..] == [Frame(image, -1)];
    }
    assert Loop([Lost, Lost, Frame(image, -1)], 0, detector) == Run([Waited, Waited, shown], 1, false) by {
      assert [Lost, Lost, Frame(image, -1)][1..] == [Lost, Frame(image, -1)];
    }
    assert [Lost, Lost, Lost, Frame(image, -1)][1..] == [Lost, Lost, Frame(image, -1)];
  }
}
