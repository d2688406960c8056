/**
 * The per-camera video track: its construction and the bookkeeping done on
 * each `recv` (frame counter and presentation timestamp, the ten-second colour
 * marker and its de-duplicated log line, detection and the stability check).
 * Pixels are not modelled: a captured frame is reduced to what the detector
 * reports about it.
 */
module Video {

  import opened Optional
  import opened ClassEnum
  import opened Stability
  import opened Detections

  /** Side of the colour marker square drawn in the frame's corner (`box_size`). */
  const BoxSize: nat := 10
  const DefaultWidth: nat := 640
  const DefaultHeight: nat := 480

  datatype Track = Track(
    direction: string,
    cameraId: int,
    stability: Tracker,
    frameCount: nat,
    lastLoggedTs: int,
    width: nat,
    height: nat)

  /**
   * The track's constructor.  `firstFrame` is the (height, width) of the frame
   * read while opening the camera, or None when that read failed.
   */
  function NewTrack(direction: string, directions: map<string, int>, firstFrame: Option<(nat, nat)>): (t: Track)
    requires direction in directions
    ensures t.cameraId == directions[direction]
    ensures t.stability == Fresh && t.frameCount == 0 && t.lastLoggedTs == -1
    ensures firstFrame.None? ==> t.width == DefaultWidth && t.height == DefaultHeight
    ensures firstFrame.Some? ==> t.height == firstFrame.value.0 && t.width == firstFrame.value.1
  {
    var (h, w) := firstFrame.GetOr((DefaultHeight, DefaultWidth));
    Track(direction, directions[direction], Fresh, 0, -1, w, h)
  }

  /** What the detector made of a captured frame. */
  datatype Detection<C> =
    | DetectorRaised                           // inference or plotting raised before the check
    | Detected(boxes: Option<seq<Box<C>>>)

  /** The camera read: failed, or a frame and its detection. */
  datatype Capture<C> = ReadFailed | Captured(detection: Detection<C>)

  /** What one `recv` call produced besides the pixels. */
  datatype FrameReport<C> = FrameReport(
    pts: nat,
    colorIndex: Option<nat>,
    colorLogged: bool,
    event: Option<(Counter, seq<C>)>,      // submitted to the event publisher
    marker: Option<(nat, nat)>)            // lower-right corner of the colour square

  /** The result of `update_status` as a value (the method of the same name computes it). */
  function Status<C>(boxes: Option<seq<Box<C>>>): (Counter, seq<C>)
  {
    if boxes.None? then (multiset{}, []) else Tally(boxes.value)
  }

  function Min(a: nat, b: nat): nat
  {
    if a <= b then a else b
  }

  /**
   * One `recv` at wall-clock second `nowTs`, with `colorCount` colours in the
   * marker palette.  Python's `//` floors; Dafny's `/` agrees with it for a
   * positive divisor.
   */
  function Recv<C>(t: Track, capture: Capture<C>, nowTs: int, colorCount: nat): (r: (Track, FrameReport<C>))
    requires colorCount > 0
    // the frame counter advances by exactly one and is the presentation timestamp
    ensures r.0.frameCount == t.frameCount + 1 && r.1.pts == r.0.frameCount
    ensures r.0.direction == t.direction && r.0.cameraId == t.cameraId
    ensures r.0.width == t.width && r.0.height == t.height
    // the colour index is always a valid palette position
    ensures r.1.colorIndex.Some? <==> capture.Captured?
    ensures r.1.colorIndex.Some? ==> r.1.colorIndex.value < colorCount
    ensures r.1.colorIndex.Some? ==> r.1.colorIndex.value == (nowTs / 10) % colorCount
    // the colour change is logged on a ten-second boundary not logged before
    ensures r.1.colorLogged <==> capture.Captured? && nowTs % 10 == 0 && nowTs != t.lastLoggedTs
    ensures r.0.lastLoggedTs == if r.1.colorLogged then nowTs else t.lastLoggedTs
    // the tracker only moves on frames the detector handled
    ensures !(capture.Captured? && capture.detection.Detected?) ==>
      r.0.stability == t.stability && r.1.event.None? && r.1.marker.None?
    ensures capture.Captured? && capture.detection.Detected? ==>
      var (counter, confs) := Status(capture.detection.boxes);
      && r.0.stability == CheckCondition(t.stability, counter, confs).0
      && (r.1.event.Some? <==> CheckCondition(t.stability, counter, confs).1)
      && (r.1.event.Some? ==> r.1.event.value == (counter, confs) && |confs| > 0)
      && r.1.marker.Some?
    ensures r.1.marker.Some? ==>
      && r.1.marker.value.0 <= BoxSize && r.1.marker.value.0 <= t.width
      && (r.1.marker.value.0 == BoxSize || r.1.marker.value.0 == t.width)
      && r.1.marker.value.1 <= BoxSize && r.1.marker.value.1 <= t.height
      && (r.1.marker.value.1 == BoxSize || r.1.marker.value.1 == t.height)
  {
    var count := t.frameCount + 1;
    match capture
    case ReadFailed =>
      (t.(frameCount := count), FrameReport(count, None, false, None, None))
    case Captured(detection) =>
      var colorIndex := (nowTs / 10) % colorCount;
      var logged := nowTs % 10 == 0 && nowTs != t.lastLoggedTs;
      var lastLogged := if logged then nowTs else t.lastLoggedTs;
      match detection
      case DetectorRaised =>
        (t.(frameCount := count, lastLoggedTs := lastLogged),
         FrameReport(count, Some(colorIndex), logged, None, None))
      case Detected(boxes) =>
        var (counter, confs) := Status(boxes);
        var (stability, fire) := CheckCondition(t.stability, counter, confs);
        var marker := (Min(BoxSize, t.width), Min(BoxSize, t.height));
        (t.(frameCount := count, lastLoggedTs := lastLogged, stability := stability),
         FrameReport(count, Some(colorIndex), logged, if fire then Some((counter, confs)) else None, Some(marker)))
  }

  /** One `recv` input: the camera read and the wall-clock second it happened at. */
  datatype Tick<C> = Tick(capture: Capture<C>, nowTs: int)

  /** The track and the per-frame reports after a sequence of `recv` calls. */
  function RecvAll<C>(t: Track, ticks: seq<Tick<C>>, colorCount: nat): (r: (Track, seq<FrameReport<C>>))
    requires colorCount > 0
    ensures |r.1| == |ticks|
  {
    if ticks == [] then (t, [])
    else
      var prev := RecvAll(t, ticks[..|ticks| - 1], colorCount);
      var last := ticks[|ticks| - 1];
      var next := Recv(prev.0, last.capture, last.nowTs, colorCount);
      (next.0, prev.1 + [next.1])
  }

  /** Presentation timestamps number the frames consecutively, so they strictly increase. */
  lemma {:induction false} PtsConsecutive<C>(t: Track, ticks: seq<Tick<C>>, colorCount: nat)
    requires colorCount > 0
    ensures var r := RecvAll(t, ticks, colorCount);
      && r.0.frameCount == t.frameCount + |ticks|
      && forall i :: 0 <= i < |ticks| ==> r.1[i].pts == t.frameCount + i + 1
  {
    if ticks != [] {
      PtsConsecutive(t, ticks[..|ticks| - 1], colorCount);
    }
  }

  lemma PtsIncreasing<C>(t: Track, ticks: seq<Tick<C>>, colorCount: nat, i: nat, j: nat)
    requires colorCount > 0
    requires i < j < |ticks|
    ensures RecvAll(t, ticks, colorCount).1[i].pts < RecvAll(t, ticks, colorCount).1[j].pts
  {
    PtsConsecutive(t, ticks, colorCount);
  }

  ghost predicate NondecreasingClock<C>(ticks: seq<Tick<C>>)
  {
    forall i, j :: 0 <= i < j < |ticks| ==> ticks[i].nowTs <= ticks[j].nowTs
  }

  /**
   * What the last-logged timestamp remembers: every logged frame so far was
   * at a ten-second boundary no later than it, and it is either the initial
   * value (nothing logged) or the latest logged timestamp.
   */
  ghost predicate LogHistory<C>(t: Track, ticks: seq<Tick<C>>, r: (Track, seq<FrameReport<C>>))
    requires |r.1| == |ticks|
  {
    && (forall i :: 0 <= i < |ticks| && r.1[i].colorLogged ==>
          ticks[i].nowTs % 10 == 0 && ticks[i].nowTs <= r.0.lastLoggedTs)
    && ((r.0.lastLoggedTs == t.lastLoggedTs && forall i :: 0 <= i < |ticks| ==> !r.1[i].colorLogged) ||
        exists i :: 0 <= i < |ticks| && r.1[i].colorLogged && ticks[i].nowTs == r.0.lastLoggedTs)
  }

  lemma {:induction false} LogHistoryHolds<C>(t: Track, ticks: seq<Tick<C>>, colorCount: nat)
    requires colorCount > 0
    requires NondecreasingClock(ticks)
    ensures LogHistory(t, ticks, RecvAll(t, ticks, colorCount))
  {
    if ticks != [] {
      var n := |ticks| - 1;
      var init := ticks[..n];
      assert NondecreasingClock(init);
      LogHistoryHolds(t, init, colorCount);
      var prev := RecvAll(t, init, colorCount);
      var step := Recv(prev.0, ticks[n].capture, ticks[n].nowTs, colorCount);
      var r := RecvAll(t, ticks, colorCount);
      assert r.0 == step.0 && r.1 == prev.1 + [step.1];
      assert forall i :: 0 <= i < n ==> ticks[i] == init[i];
      if step.1.colorLogged {
        assert r.1[n].colorLogged && ticks[n].nowTs == r.0.lastLoggedTs;
        forall i | 0 <= i < n && r.1[i].colorLogged
          ensures ticks[i].nowTs <= r.0.lastLoggedTs
        {
          assert prev.1[i].colorLogged;
          var k :| 0 <= k < n && prev.1[k].colorLogged && init[k].nowTs == prev.0.lastLoggedTs;
          assert ticks[k].nowTs <= ticks[n].nowTs;
        }
      } else {
        if exists i :: 0 <= i < n && prev.1[i].colorLogged && init[i].nowTs == prev.0.lastLoggedTs {
          var i :| 0 <= i < n && prev.1[i].colorLogged && init[i].nowTs == prev.0.lastLoggedTs;
          assert r.1[i].colorLogged && ticks[i].nowTs == r.0.lastLoggedTs;
        }
      }
    }
  }

  /**
   * With a clock that does not run backwards, the colour change is logged at
   * most once per timestamp, and only on ten-second boundaries.
   */
  lemma {:induction false} LogOncePerTimestamp<C>(t: Track, ticks: seq<Tick<C>>, colorCount: nat)
    requires colorCount > 0
    requires NondecreasingClock(ticks)
    ensures var reports := RecvAll(t, ticks, colorCount).1;
      forall i, j :: 0 <= i < j < |ticks| && reports[i].colorLogged && reports[j].colorLogged ==>
        ticks[i].nowTs != ticks[j].nowTs
    ensures var reports := RecvAll(t, ticks, colorCount).1;
      forall i :: 0 <= i < |ticks| && reports[i].colorLogged ==> ticks[i].nowTs % 10 == 0
  {
    if ticks != [] {
      var n := |ticks| - 1;
      var init := ticks[..n];
      assert NondecreasingClock(init);
      LogOncePerTimestamp(t, init, colorCount);
      LogHistoryHolds(t, init, colorCount);
      var prev := RecvAll(t, init, colorCount);
      var step := Recv(prev.0, ticks[n].capture, ticks[n].nowTs, colorCount);
      var r := RecvAll(t, ticks, colorCount);
      assert r.1 == prev.1 + [step.1];
      assert forall i :: 0 <= i < n ==> ticks[i] == init[i] && r.1[i] == prev.1[i];
      if step.1.colorLogged {
        forall i | 0 <= i < n && r.1[i].colorLogged
          ensures ticks[i].nowTs < ticks[n].nowTs
        {
          assert prev.1[i].colorLogged;
          var k :| 0 <= k < n && prev.1[k].colorLogged && init[k].nowTs == prev.0.lastLoggedTs;
          assert ticks[k].nowTs <= ticks[n].nowTs;
        }
      }
    }
  }

  /** The frames the detector handled, as the tracker sees them. */
  function Observed<C>(ticks: seq<Tick<C>>): (obs: seq<Observation<C>>)
    ensures |obs| <= |ticks|
  {
    if ticks == [] then []
    else
      var init := Observed(ticks[..|ticks| - 1]);
      match ticks[|ticks| - 1].capture
      case Captured(Detected(boxes)) =>
        var (counter, confs) := Status(boxes);
        init + [Observation(counter, confs)]
      case _ => init
  }

  /** The events submitted for publication, in order. */
  function EventsOf<C>(reports: seq<FrameReport<C>>): (events: seq<(Counter, seq<C>)>)
    ensures |events| <= |reports|
  {
    if reports == [] then []
    else
      var last := reports[|reports| - 1];
      EventsOf(reports[..|reports| - 1]) + (if last.event.Some? then [last.event.value] else [])
  }

  /** The observations on which the tracker reports a change, started in state `t`. */
  function ReportedChanges<C>(t: Tracker, obs: seq<Observation<C>>): (changes: seq<(Counter, seq<C>)>)
    ensures |changes| <= |obs|
  {
    if obs == [] then []
    else
      var last := obs[|obs| - 1];
      ReportedChanges(t, obs[..|obs| - 1]) + (if FiresLast(t, obs) then [(last.counter, last.confidences)] else [])
  }

  /**
   * Over any sequence of `recv` calls, the track's tracker is the stability
   * tracker run on exactly the frames the detector handled, and the events
   * submitted are exactly the changes it reports, in order.  Failed reads and
   * detector exceptions leave it alone.
   */
  lemma {:induction false} RecvAllFollowsTracker<C>(t: Track, ticks: seq<Tick<C>>, colorCount: nat)
    requires colorCount > 0
    ensures RecvAll(t, ticks, colorCount).0.stability == Run(t.stability, Observed(ticks))
    ensures EventsOf(RecvAll(t, ticks, colorCount).1) == ReportedChanges(t.stability, Observed(ticks))
  {
    if ticks != [] {
      var n := |ticks| - 1;
      var init := ticks[..n];
      RecvAllFollowsTracker(t, init, colorCount);
      var prev := RecvAll(t, init, colorCount);
      var step := Recv(prev.0, ticks[n].capture, ticks[n].nowTs, colorCount);
      var r := RecvAll(t, ticks, colorCount);
      assert r.0 == step.0 && r.1 == prev.1 + [step.1];
      assert (prev.1 + [step.1])[..n] == prev.1;
      assert EventsOf(r.1) == EventsOf(prev.1) + (if step.1.event.Some? then [step.1.event.value] else []);
      var obsInit := Observed(init);
      match ticks[n].capture
      case Captured(Detected(boxes)) =>
        var o := Observation(Status(boxes).0, Status(boxes).1);
        assert Observed(ticks) == obsInit + [o];
        assert (obsInit + [o])[..|obsInit|] == obsInit;
        assert Run(t.stability, obsInit + [o]) == Step(Run(t.stability, obsInit), o);
      case _ =>
        assert Observed(ticks) == obsInit;
    }
  }
}
