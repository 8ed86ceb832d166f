/**
 * The person annotator (`detect_people` in main.py): keeps the detector's
 * person boxes, colours each by a confidence tier, and overlays a label per
 * person and one people counter. Pixel drawing is replaced by the sequence of
 * drawing commands the annotator issues, in issue order.
 */
module Annotator {
  import opened Wrappers
  import opened Capture

  /** Box corners in pixel coordinates, already truncated to integers. */
  datatype Box = Box(x1: int, y1: int, x2: int, y2: int)

  /** One box reported by the detector. */
  datatype Detection = Detection(box: Box, classId: int, confidence: real)

  /** One element of the detector's result list; `boxes` is absent when it holds none. */
  datatype DetectorResult = DetectorResult(boxes: Option<seq<Detection>>)

  /** The detector as the pipeline sees it: a frame in, the model's result list out. */
  type Detector = Image -> seq<DetectorResult>

  /** The class id the detector uses for "person". */
  const PersonClass := 0

  /** Colours are OpenCV blue-green-red triples. */
  datatype Color = Bgr(b: int, g: int, r: int)

  const Green := Bgr(0, 255, 0)
  const Yellow := Bgr(0, 255, 255)
  const Orange := Bgr(0, 165, 255)
  const Black := Bgr(0, 0, 0)
  const White := Bgr(255, 255, 255)
  const Blue := Bgr(255, 0, 0)

  datatype Point = Point(x: int, y: int)

  /** Texts the pipeline renders; their exact glyphs are left to the drawing library. */
  datatype Caption =
    | PersonLabel(confidence: real)   // "Person {confidence:.2f}"
    | PeopleCount(count: nat)         // "People: {count}"
    | FrameNumber(number: nat)        // "Frame: {number}"
    | HttpFrameNumber(number: nat)    // "HTTP Stream | Frame: {number}"

  /** One drawing call on the frame. */
  datatype DrawCommand =
      /** Outline rectangle between two corners. */
    | Rectangle(corner1: Point, corner2: Point, color: Color, thickness: nat)
      /** Filled rectangle from `topLeft` down to row `bottom`, as wide as `caption` renders. */
    | LabelBackground(topLeft: Point, bottom: int, caption: Caption, color: Color)
      /** Text with its baseline starting at `origin`. */
    | Text(caption: Caption, origin: Point, scale: real, color: Color, thickness: nat)

  /** Confidence tiers, highest first. */
  datatype Tier = High | Medium | Low

  /** Tier of a confidence: both thresholds are strict, so 0.8 and 0.6 fall to the tier below. */
  function TierOf(confidence: real): (t: Tier)
    ensures t == High <==> confidence > 0.8
    ensures t == Medium <==> 0.6 < confidence <= 0.8
    ensures t == Low <==> confidence <= 0.6
  {
    if confidence > 0.8 then High
    else if confidence > 0.6 then Medium
    else Low
  }

  function TierColor(t: Tier): Color
  {
    match t
    case High => Green
    case Medium => Yellow
    case Low => Orange
  }

  /** 0 for the highest tier, 2 for the lowest. */
  function Rank(t: Tier): nat
  {
    match t
    case High => 0
    case Medium => 1
    case Low => 2
  }

  /** A higher confidence never gets a lower tier. */
  lemma TierMonotonic(c1: real, c2: real)
    requires c1 <= c2
    ensures Rank(TierOf(c2)) <= Rank(TierOf(c1))
  {
  }

  /** Every box of every result, results in order and boxes in order within each. */
  function AllDetections(results: seq<DetectorResult>): seq<Detection>
  {
    if results == [] then []
    else
      var last := results[|results| - 1];
      AllDetections(results[..|results| - 1]) + (if last.boxes.Some? then last.boxes.value else [])
  }

  /** `result` holds `d` among its boxes. */
  predicate Reports(result: DetectorResult, d: Detection)
  {
    result.boxes.Some? && d in result.boxes.value
  }

  /** The flattened boxes are exactly the boxes some result reports; a result without boxes adds none. */
  lemma {:induction false} AllDetectionsMembers(results: seq<DetectorResult>)
    ensures forall d :: d in AllDetections(results) <==> exists k :: 0 <= k < |results| && Reports(results[k], d)
    decreases |results|
  {
    if results != [] {
      var init := results[..|results| - 1];
      var last := results[|results| - 1];
      AllDetectionsMembers(init);
      assert forall k :: 0 <= k < |init| ==> init[k] == results[k];
      forall d
        ensures d in AllDetections(results) <==> exists k :: 0 <= k < |results| && Reports(results[k], d)
      {
        if d in AllDetections(results) && d !in AllDetections(init) {
          assert Reports(results[|results| - 1], d);
        }
      }
    }
  }

  /** The person detections, in detector order (reference filter). */
  function Persons(dets: seq<Detection>): (ps: seq<Detection>)
    ensures |ps| <= |dets|
  {
    if dets == [] then []
    else
      var last := dets[|dets| - 1];
      Persons(dets[..|dets| - 1]) + (if last.classId == PersonClass then [last] else [])
  }

  /** The three commands drawn for one person: box outline, label background, label text. */
  function PersonMarks(d: Detection): (m: seq<DrawCommand>)
    ensures |m| == 3 && m[0].Rectangle? && m[1].LabelBackground? && m[2].Text?
    ensures m[0].corner1 == Point(d.box.x1, d.box.y1) && m[0].corner2 == Point(d.box.x2, d.box.y2)
    ensures m[0].thickness == 2
    ensures m[0].color == Green <==> d.confidence > 0.8
    ensures m[0].color == Yellow <==> 0.6 < d.confidence <= 0.8
    ensures m[0].color == Orange <==> d.confidence <= 0.6
    ensures m[1].color == m[0].color
    ensures m[1].topLeft == Point(d.box.x1, d.box.y1 - 25) && m[1].bottom == d.box.y1
    ensures m[2].color == Black && m[2].caption == m[1].caption == PersonLabel(d.confidence)
    ensures m[2].origin.x == m[1].topLeft.x && m[1].topLeft.y < m[2].origin.y < m[1].bottom
  {
    var color := TierColor(TierOf(d.confidence));
    var caption := PersonLabel(d.confidence);
    [ Rectangle(Point(d.box.x1, d.box.y1), Point(d.box.x2, d.box.y2), color, 2),
      LabelBackground(Point(d.box.x1, d.box.y1 - 25), d.box.y1, caption, color),
      Text(caption, Point(d.box.x1, d.box.y1 - 5), 0.6, Black, 2) ]
  }

  /** The person marks of `ps`, one triple per person, in order. */
  function Marks(ps: seq<Detection>): (cmds: seq<DrawCommand>)
    ensures |cmds| == 3 * |ps|
  {
    if ps == [] then [] else Marks(ps[..|ps| - 1]) + PersonMarks(ps[|ps| - 1])
  }

  /** Command triple k of the marks is the marks of person k. */
  lemma {:induction false} MarksTriples(ps: seq<Detection>)
    ensures forall k :: 0 <= k < |ps| ==> Marks(ps)[3 * k..3 * k + 3] == PersonMarks(ps[k])
    decreases |ps|
  {
    if ps != [] {
      var init := ps[..|ps| - 1];
      MarksTriples(init);
      var cmds := Marks(ps);
      assert cmds == Marks(init) + PersonMarks(ps[|ps| - 1]);
      forall k | 0 <= k < |ps|
        ensures cmds[3 * k..3 * k + 3] == PersonMarks(ps[k])
      {
        if k < |init| {
          assert cmds[3 * k..3 * k + 3] == Marks(init)[3 * k..3 * k + 3];
          assert init[k] == ps[k];
        }
      }
    }
  }

  /** The people counter, drawn once after all person marks. */
  function CounterText(count: nat): DrawCommand
  {
    Text(PeopleCount(count), Point(10, 70), 1.0, Blue, 2)
  }

  predicate IsCounter(c: DrawCommand)
  {
    c.Text? && c.caption.PeopleCount?
  }

  /**
   * Everything `detect_people` draws for the detector output `results`: the
   * marks of each person in detector order, then the counter of persons.
   */
  function Annotate(results: seq<DetectorResult>): (cmds: seq<DrawCommand>)
    ensures var ps := Persons(AllDetections(results));
      && |cmds| == 3 * |ps| + 1
      && cmds[|cmds| - 1] == CounterText(|ps|)
      && (forall k :: 0 <= k < |ps| ==> cmds[3 * k..3 * k + 3] == PersonMarks(ps[k]))
      && (forall k :: 0 <= k < |cmds| - 1 ==> !IsCounter(cmds[k]))
  {
    var ps := Persons(AllDetections(results));
    var marks := Marks(ps);
    MarksTriples(ps);
    assert forall k :: 0 <= k < |marks| ==> !IsCounter(marks[k]) by {
      forall k | 0 <= k < |marks|
        ensures !IsCounter(marks[k])
      {
        var p := k / 3;
        assert marks[3 * p..3 * p + 3] == PersonMarks(ps[p]);
        assert marks[k] == PersonMarks(ps[p])[k - 3 * p];
      }
    }
    marks + [CounterText(|ps|)]
  }

  /**
   * The loop of `detect_people`: walks the results and their boxes, counting
   * and marking persons as it meets them, then draws the counter.
   */
  method DetectPeople(results: seq<DetectorResult>) returns (cmds: seq<DrawCommand>, personCount: nat)
    ensures personCount == |Persons(AllDetections(results))|
    ensures cmds == Marks(Persons(AllDetections(results))) + [CounterText(personCount)]
  {
    personCount := 0;
    cmds := [];
    var i := 0;
    while i < |results|
      invariant 0 <= i <= |results|
      invariant personCount == |Persons(AllDetections(results[..i]))|
      invariant cmds == Marks(Persons(AllDetections(results[..i])))
    {
      var boxes := if results[i].boxes.Some? then results[i].boxes.value else [];
      cmds, personCount := MarkBoxes(AllDetections(results[..i]), boxes, cmds, personCount);
      assert results[..i + 1][..i] == results[..i];
      i := i + 1;
    }
    assert results[..i] == results;
    cmds := cmds + [CounterText(personCount)];
  }

  /** The inner loop over one result's boxes, extending the marks drawn for `seen`. */
  method MarkBoxes(seen: seq<Detection>, boxes: seq<Detection>, cmds0: seq<DrawCommand>, count0: nat)
    returns (cmds: seq<DrawCommand>, personCount: nat)
    requires count0 == |Persons(seen)| && cmds0 == Marks(Persons(seen))
    ensures personCount == |Persons(seen + boxes)|
    ensures cmds == Marks(Persons(seen + boxes))
  {
    cmds, personCount := cmds0, count0;
    var j := 0;
    assert seen + boxes[..j] == seen;
    while j < |boxes|
      invariant 0 <= j <= |boxes|
      invariant personCount == |Persons(seen + boxes[..j])|
      invariant cmds == Marks(Persons(seen + boxes[..j]))
    {
      var d := boxes[j];
      assert seen + boxes[..j + 1] == (seen + boxes[..j]) + [d];
      MarkStep(seen + boxes[..j], d);
      if d.classId == PersonClass {
        personCount := personCount + 1;
        cmds := cmds + PersonMarks(d);
      }
      j := j + 1;
    }
    assert boxes[..j] == boxes;
  }

  /** One more box: a person adds one to the count and its three marks; anything else adds nothing. */
  lemma MarkStep(dets: seq<Detection>, d: Detection)
    ensures |Persons(dets + [d])| == |Persons(dets)| + (if d.classId == PersonClass then 1 else 0)
    ensures Marks(Persons(dets + [d])) == Marks(Persons(dets)) + (if d.classId == PersonClass then PersonMarks(d) else [])
  {
    PersonsSnoc(dets, d);
    if d.classId == PersonClass {
      MarksSnoc(Persons(dets), d);
    } else {
      assert Persons(dets) + [] == Persons(dets);
      assert Marks(Persons(dets)) + [] == Marks(Persons(dets));
    }
  }

  lemma PersonsSnoc(dets: seq<Detection>, d: Detection)
    ensures Persons(dets + [d]) == Persons(dets) + (if d.classId == PersonClass then [d] else [])
  {
    assert (dets + [d])[..|dets|] == dets;
  }

  lemma MarksSnoc(ps: seq<Detection>, p: Detection)
    ensures Marks(ps + [p]) == Marks(ps) + PersonMarks(p)
  {
    assert (ps + [p])[..|ps|] == ps;
  }

  /** Filtering distributes over concatenation, so detector order is kept. */
  lemma {:induction false} PersonsAppend(a: seq<Detection>, b: seq<Detection>)
    ensures Persons(a + b) == Persons(a) + Persons(b)
    decreases |b|
  {
    if b == [] {
      assert a + b == a;
    } else {
      var b' := b[..|b| - 1];
      assert (a + b)[..|a + b| - 1] == a + b';
      PersonsAppend(a, b');
    }
  }

  /** The filter keeps exactly the person detections: nothing else, and none is lost. */
  lemma {:induction false} PersonsExact(dets: seq<Detection>)
    ensures forall d :: d in Persons(dets) <==> d in dets && d.classId == PersonClass
    decreases |dets|
  {
    if dets != [] {
      var init := dets[..|dets| - 1];
      PersonsExact(init);
      assert dets == init + [dets[|dets| - 1]];
    }
  }

  /** A detection that is not a person changes nothing that is drawn. */
  lemma NonPersonInvisible(a: seq<Detection>, d: Detection, b: seq<Detection>)
    requires d.classId != PersonClass
    ensures Persons(a + [d] + b) == Persons(a + b)
  {
    PersonsAppend(a + [d], b);
    PersonsAppend(a, [d]);
    PersonsAppend(a, b);
    assert Persons([d]) == [] by {
      assert [d][..0] == [];
    }
  }

  /** Indices of `dets` whose class is "person". */
  ghost function PersonIndices(dets: seq<Detection>): set<int>
  {
    set i | 0 <= i < |dets| && dets[i].classId == PersonClass
  }

  /** The people counter equals the number of positions holding a person detection. */
  lemma {:induction false} PersonCountIsClassCount(dets: seq<Detection>)
    ensures |Persons(dets)| == |PersonIndices(dets)|
    decreases |dets|
  {
    if dets != [] {
      var n := |dets| - 1;
      var init := dets[..n];
      PersonCountIsClassCount(init);
      if dets[n].classId == PersonClass {
        assert PersonIndices(dets) == PersonIndices(init) + {n};
        assert n !in PersonIndices(init);
      } else {
        assert PersonIndices(dets) == PersonIndices(init);
      }
    }
  }

  /** An empty detector output still draws the counter, showing zero. */
  lemma NoDetectionsDrawsZeroCounter(results: seq<DetectorResult>)
    requires forall k :: 0 <= k < |results| ==> results[k].boxes.None? || results[k].boxes.value == []
    ensures Annotate(results) == [CounterText(0)]
  {
    EmptyResultsHaveNoDetections(results);
  }

  lemma {:induction false} EmptyResultsHaveNoDetections(results: seq<DetectorResult>)
    requires forall k :: 0 <= k < |results| ==> results[k].boxes.None? || results[k].boxes.value == []
    ensures AllDetections(results) == []
    decreases |results|
  {
    if results != [] {
      EmptyResultsHaveNoDetections(results[..|results| - 1]);
    }
  }

  /** One confident person at (10, 10, 50, 90): green box, green label background, counter 1. */
  lemma OneConfidentPerson()
    ensures
      var d := Detection(Box(10, 10, 50, 90), PersonClass, 0.95);
      Annotate([DetectorResult(Some([d]))]) ==
        [ Rectangle(Point(10, 10), Point(50, 90), Green, 2),
          LabelBackground(Point(10, -15), 10, PersonLabel(0.95), Green),
          Text(PersonLabel(0.95), Point(10, 5), 0.6, Black, 2),
          CounterText(1) ]
  {
    var d := Detection(Box(10, 10, 50, 90), PersonClass, 0.95);
    var results := [DetectorResult(Some([d]))];
    assert results[..0] == [];
    assert AllDetections(results) == [d];
    assert [d][..0] == [];
    assert Persons([d]) == [d];
  }
}
