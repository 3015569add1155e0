/**
 The counting game's up/down gesture detector (`detect_alternating_gesture`):
 one motion record per hand, an `up` event when a hand rises more than 30
 pixels while not already going up, a `down` event when a rising hand drops
 more than 30 pixels; the first event of the frame is returned.
 */
module CountingTracker {
  import opened Base

  const MovementThreshold := 30

  datatype Dir = Up | Down

  /** One hand's record: `direction`, `last_y`, `peak_y`, `valley_y`. */
  datatype Motion = Motion(direction: Option<Dir>, lastY: Option<int>, peakY: Option<int>, valleyY: Option<int>)

  const Fresh := Motion(None, None, None, None)

  datatype Tracker = Tracker(left: Motion, right: Motion)

  const InitialTracker := Tracker(Fresh, Fresh)

  function MotionOf(t: Tracker, s: Side): Motion
  {
    if s == Left then t.left else t.right
  }

  /** A detected event such as `'left_up'`. */
  datatype Gesture = Gesture(side: Side, dir: Dir)

  /** A direction record may move `before -> after` while emitting `e`:
      nothing emitted leaves it alone, `up` is only emitted when not already
      going up, `down` only when going up, and an event becomes the new
      direction. */
  predicate Consistent(before: Option<Dir>, e: Option<Dir>, after: Option<Dir>)
  {
    match e
    case None => after == before
    case Some(Up) => before != Some(Up) && after == Some(Up)
    case Some(Down) => before == Some(Up) && after == Some(Down)
  }

  datatype MoveResult = MoveResult(motion: Motion, emitted: Option<Dir>)

  /** One hand's update for a new centre y. */
  function Move(m: Motion, y: int): (r: MoveResult)
    ensures r.motion.lastY == Some(y)
    ensures r.emitted == Some(Up) <==>
      m.lastY.Some? && m.lastY.value - y > MovementThreshold && m.direction != Some(Up)
    ensures r.emitted == Some(Down) <==>
      m.lastY.Some? && y - m.lastY.value > MovementThreshold && m.direction == Some(Up)
    ensures Consistent(m.direction, r.emitted, r.motion.direction)
    ensures r.emitted == Some(Up) ==> r.motion.valleyY == m.lastY
    // the peak only ever rises on screen (smaller y), and covers every rise
    ensures m.peakY.Some? ==> r.motion.peakY.Some? && r.motion.peakY.value <= m.peakY.value
    ensures m.lastY.Some? && m.lastY.value - y > MovementThreshold ==>
      r.motion.peakY.Some? && r.motion.peakY.value <= y
    ensures m.lastY.Some? && y - m.lastY.value > MovementThreshold ==>
      r.motion.valleyY.Some? && r.motion.valleyY.value >= y && r.motion.peakY == m.peakY
    // the valley only ever falls on screen (larger y) until a new rise resets it
    ensures r.emitted != Some(Up) && m.valleyY.Some? ==>
      r.motion.valleyY.Some? && r.motion.valleyY.value >= m.valleyY.value
    ensures (m.lastY.Some? && m.lastY.value > y && r.emitted.None?) ==> r.motion.valleyY == m.valleyY
    ensures m.lastY.None? || Abs(m.lastY.value - y) <= MovementThreshold ==>
      r == MoveResult(m.(lastY := Some(y)), None)
  {
    if m.lastY.None? then MoveResult(m.(lastY := Some(y)), None)
    else
      var delta := m.lastY.value - y;
      if Abs(delta) > MovementThreshold then
        if delta > 0 then
          var turn := m.direction != Some(Up);
          var m1 := if turn then m.(direction := Some(Up), valleyY := m.lastY) else m;
          var m2 := if m1.peakY.None? || y < m1.peakY.value then m1.(peakY := Some(y)) else m1;
          MoveResult(m2.(lastY := Some(y)), if turn then Some(Up) else None)
        else
          var turn := m.direction == Some(Up);
          var m1 := if turn then m.(direction := Some(Down)) else m;
          var m2 := if m1.valleyY.None? || y > m1.valleyY.value then m1.(valleyY := Some(y)) else m1;
          MoveResult(m2.(lastY := Some(y)), if turn then Some(Down) else None)
      else MoveResult(m.(lastY := Some(y)), None)
  }

  // ---------------------------------------------------------------------
  // Which detected hand is the left one and which the right one.
  // ---------------------------------------------------------------------

  /** The tests the hand-assignment loops apply to each hand. */
  datatype Criterion = LeftLabel | RightLabel | LeftHalf(width: nat) | RightHalf(width: nat)

  /** Whether hand `h` passes test `c`; a frame half is decided by
      `center_x < frame_width // 2`. */
  predicate Matches(c: Criterion, h: Hand)
  {
    match c
    case LeftLabel => h.tag == Labelled(Left)
    case RightLabel => h.tag == Labelled(Right)
    case LeftHalf(w) => h.x < w / 2
    case RightHalf(w) => h.x >= w / 2
  }

  /** Position `i` is the last one of `hands[..n]` passing `c`. */
  predicate IsLastWhere(hands: seq<Hand>, n: int, i: int, c: Criterion)
    requires n <= |hands|
  {
    0 <= i < n && Matches(c, hands[i]) && forall j :: i < j < n ==> !Matches(c, hands[j])
  }

  /** The position a Python loop over `hands[..n]` that overwrites on every
      hand passing `c` ends with. */
  function LastWhere(hands: seq<Hand>, c: Criterion, n: nat): (r: Option<nat>)
    requires n <= |hands|
    ensures r.None? <==> forall i :: 0 <= i < n ==> !Matches(c, hands[i])
    ensures r.Some? ==> IsLastWhere(hands, n, r.value, c)
  {
    if n == 0 then None
    else if Matches(c, hands[n - 1]) then Some(n - 1)
    else LastWhere(hands, c, n - 1)
  }

  function HandAt(hands: seq<Hand>, i: Option<nat>): (r: Option<Hand>)
    requires i.Some? ==> i.value < |hands|
  {
    if i.Some? then Some(hands[i.value]) else None
  }

  /** The left and right hand: the last hand labelled `'Left'` and the last
      labelled `'Right'`; when no hand carries either label, the last hand
      in the left half and the last one in the right half instead. */
  function Assign(hands: seq<Hand>, width: nat): (r: (Option<nat>, Option<nat>))
    ensures LabelledSides(hands) != {} ==>
      && (r.0.Some? <==> Left in LabelledSides(hands))
      && (r.1.Some? <==> Right in LabelledSides(hands))
      && (r.0.Some? ==> IsLastWhere(hands, |hands|, r.0.value, LeftLabel))
      && (r.1.Some? ==> IsLastWhere(hands, |hands|, r.1.value, RightLabel))
    ensures LabelledSides(hands) == {} ==>
      && (r.0.Some? <==> exists i :: 0 <= i < |hands| && hands[i].x < width / 2)
      && (r.1.Some? <==> exists i :: 0 <= i < |hands| && hands[i].x >= width / 2)
      && (r.0.Some? ==> IsLastWhere(hands, |hands|, r.0.value, LeftHalf(width)))
      && (r.1.Some? ==> IsLastWhere(hands, |hands|, r.1.value, RightHalf(width)))
    ensures |hands| > 0 ==> r.0.Some? || r.1.Some?
  {
    var l := LastWhere(hands, LeftLabel, |hands|);
    var r := LastWhere(hands, RightLabel, |hands|);
    LabelledSidesWitness(hands);
    if l.None? && r.None? then
      var fl := LastWhere(hands, LeftHalf(width), |hands|);
      var fr := LastWhere(hands, RightHalf(width), |hands|);
      assert |hands| > 0 ==> Matches(LeftHalf(width), hands[0]) || Matches(RightHalf(width), hands[0]);
      assert LabelledSides(hands) == {} by {
        forall s | s in LabelledSides(hands) ensures s != Left && s != Right {
        }
      }
      (fl, fr)
    else (l, r)
  }

  /** A side is among the labels exactly when some hand carries it. */
  lemma LabelledSidesWitness(hands: seq<Hand>)
    ensures Left in LabelledSides(hands) <==> exists i :: 0 <= i < |hands| && Matches(LeftLabel, hands[i])
    ensures Right in LabelledSides(hands) <==> exists i :: 0 <= i < |hands| && Matches(RightLabel, hands[i])
  {
    if Left in LabelledSides(hands) {
      var i :| 0 <= i < |hands| && hands[i].tag.Labelled? && hands[i].tag.side == Left;
      assert Matches(LeftLabel, hands[i]);
    }
    if Right in LabelledSides(hands) {
      var i :| 0 <= i < |hands| && hands[i].tag.Labelled? && hands[i].tag.side == Right;
      assert Matches(RightLabel, hands[i]);
    }
  }

  // ---------------------------------------------------------------------
  // One call.
  // ---------------------------------------------------------------------

  datatype DetectResult = DetectResult(tracker: Tracker, actions: seq<Gesture>, gesture: Option<Gesture>)

  /** The event list's entry for side `s`, if any. */
  function EmittedFor(actions: seq<Gesture>, s: Side): Option<Dir>
  {
    if |actions| == 0 then None
    else if actions[0].side == s then Some(actions[0].dir)
    else EmittedFor(actions[1..], s)
  }

  function MoveOpt(m: Motion, hand: Option<Hand>): MoveResult
  {
    if hand.Some? then Move(m, hand.value.y) else MoveResult(m, None)
  }

  function Events(s: Side, e: Option<Dir>): seq<Gesture>
  {
    if e.Some? then [Gesture(s, e.value)] else []
  }

  /** `detect_alternating_gesture`; `enabled` is "a detector and a camera are
      present", `width` the frame width. */
  function Detect(enabled: bool, t: Tracker, hands: seq<Hand>, width: nat): (r: DetectResult)
    ensures !enabled ==> r == DetectResult(t, [], None)
    ensures enabled && |hands| == 0 ==>
      r == DetectResult(Tracker(t.left.(lastY := None), t.right.(lastY := None)), [], None)
    // each side's new motion and event are `Move` applied to the hand assigned to it
    ensures enabled && |hands| > 0 ==>
      var (li, ri) := Assign(hands, width);
      && MotionOf(r.tracker, Left) == MoveOpt(t.left, HandAt(hands, li)).motion
      && EmittedFor(r.actions, Left) == MoveOpt(t.left, HandAt(hands, li)).emitted
      && MotionOf(r.tracker, Right) == MoveOpt(t.right, HandAt(hands, ri)).motion
      && EmittedFor(r.actions, Right) == MoveOpt(t.right, HandAt(hands, ri)).emitted
    ensures r.gesture == (if |r.actions| > 0 then Some(r.actions[0]) else None)
    ensures |r.actions| <= 2 && forall i :: 0 < i < |r.actions| ==> r.actions[0].side == Left && r.actions[i].side == Right
    ensures forall s :: Consistent(MotionOf(t, s).direction, EmittedFor(r.actions, s), MotionOf(r.tracker, s).direction)
    ensures forall s :: EmittedFor(r.actions, s).Some? ==>
      MotionOf(t, s).lastY.Some? &&
      exists h :: h in hands && Abs(MotionOf(t, s).lastY.value - h.y) > MovementThreshold
    ensures forall s :: MotionOf(t, s).peakY.Some? ==>
      MotionOf(r.tracker, s).peakY.Some? && MotionOf(r.tracker, s).peakY.value <= MotionOf(t, s).peakY.value
  {
    if !enabled then DetectResult(t, [], None)
    else if |hands| == 0 then
      DetectResult(Tracker(t.left.(lastY := None), t.right.(lastY := None)), [], None)
    else
      var (li, ri) := Assign(hands, width);
      var lh := HandAt(hands, li);
      var rh := HandAt(hands, ri);
      var l := MoveOpt(t.left, lh);
      var r := MoveOpt(t.right, rh);
      var actions := Events(Left, l.emitted) + Events(Right, r.emitted);
      assert EmittedFor(actions, Left) == l.emitted;
      assert EmittedFor(actions, Right) == r.emitted by {
        if l.emitted.Some? {
          assert actions[1..] == Events(Right, r.emitted);
        }
      }
      DetectResult(Tracker(l.motion, r.motion), actions, if |actions| > 0 then Some(actions[0]) else None)
  }

  // ---------------------------------------------------------------------
  // Over many frames: each hand's events alternate up, down, up, ...
  // ---------------------------------------------------------------------

  /** `es` alternates, starting after a hand whose direction is `d`: the
      first event is `up` unless the hand is already going up. */
  predicate AlternatesFrom(d: Option<Dir>, es: seq<Dir>)
    decreases |es|
  {
    |es| == 0 ||
    (es[0] == (if d == Some(Up) then Down else Up) && AlternatesFrom(Some(es[0]), es[1..]))
  }

  /** The tracker after each frame, and each frame's events. */
  function RunDetect(t: Tracker, frames: seq<seq<Hand>>, width: nat): (r: seq<DetectResult>)
    ensures |r| == |frames|
    decreases |frames|
  {
    if |frames| == 0 then []
    else
      var d := Detect(true, t, frames[0], width);
      [d] + RunDetect(d.tracker, frames[1..], width)
  }

  /** The events of side `s` over a run, in order. */
  function SideEvents(outs: seq<DetectResult>, s: Side): seq<Dir>
    decreases |outs|
  {
    if |outs| == 0 then []
    else
      var e := EmittedFor(outs[0].actions, s);
      (if e.Some? then [e.value] else []) + SideEvents(outs[1..], s)
  }

  /** Across any run of frames, each hand's events alternate strictly
      between up and down, beginning with up (unless the hand was already
      going up), whatever the other hand, absent frames or resets of
      `last_y` do in between. */
  lemma {:induction false} EventsAlternate(t: Tracker, frames: seq<seq<Hand>>, width: nat, s: Side)
    ensures AlternatesFrom(MotionOf(t, s).direction, SideEvents(RunDetect(t, frames, width), s))
    decreases |frames|
  {
    if |frames| > 0 {
      var outs := RunDetect(t, frames, width);
      var d := Detect(true, t, frames[0], width);
      EventsAlternate(d.tracker, frames[1..], width, s);
      assert outs[1..] == RunDetect(d.tracker, frames[1..], width);
      var e := EmittedFor(d.actions, s);
      assert Consistent(MotionOf(t, s).direction, e, MotionOf(d.tracker, s).direction);
      if e.Some? {
        assert SideEvents(outs, s) == [e.value] + SideEvents(outs[1..], s);
        assert SideEvents(outs, s)[1..] == SideEvents(outs[1..], s);
      } else {
        assert SideEvents(outs, s) == SideEvents(outs[1..], s);
      }
    }
  }

  /** Consecutive events of one hand differ, and a fresh hand's first event
      is `up`. */
  lemma {:induction false} NoRepeatedEvent(es: seq<Dir>, d: Option<Dir>)
    requires AlternatesFrom(d, es)
    ensures forall i :: 0 <= i < |es| - 1 ==> es[i + 1] != es[i]
    ensures |es| > 0 && d != Some(Up) ==> es[0] == Up
    decreases |es|
  {
    if |es| > 0 {
      NoRepeatedEvent(es[1..], Some(es[0]));
      assert forall i :: 0 < i < |es| - 1 ==> es[i + 1] == es[1..][i] && es[i] == es[1..][i - 1];
    }
  }
}
