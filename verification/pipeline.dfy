/**
 One processed camera frame as the Flappy Bird and rhythm controllers run
 it: the detector's hands go through `filter_hands` and the result through
 `process_hand_gesture`.
 */
module Pipeline {
  import opened Base
  import opened HandFilter
  import opened MotionTracker

  /** The frame's gesture, from the raw detector output. */
  function Frame(cfg: Config, s: State, raw: seq<Hand>): (r: StepResult)
    // the hand that fires is one the filter kept
    ensures r.gesture.Some? ==> r.gesture.value in LabelledSides(FilterHands(raw))
    // a frame without a valid hand forgets every tracked position
    ensures |ValidHands(raw)| == 0 ==>
      r == StepResult(State(map[], Decrement(s.cooldown), s.lastJumpHand), None)
  {
    FilterFewValid(raw);
    Step(cfg, true, s, FilterHands(raw))
  }

  /** Because the filter leaves at most one hand per side, the tracker's
      reference characterisation always applies to a filtered frame: the
      first qualifying kept hand fires, and every kept hand's entry is the
      expected one. */
  lemma FrameCharacterised(cfg: Config, s: State, raw: seq<Hand>)
    requires |ValidHands(raw)| > 0
    ensures var hands := FilterHands(raw);
      var r := Frame(cfg, s, raw);
      var scanning := Decrement(s.cooldown) == 0;
      var f := if scanning then FirstQualifying(cfg, s.lastJumpHand, s.positions, hands, 0) else None;
      && |hands| > 0
      && r.gesture == SideAt(hands, f)
      && forall j :: 0 <= j < |hands| && hands[j].tag.Labelled? ==>
           Get(r.state.positions, hands[j].tag.side) == Expected(cfg, s.positions, hands, f, j, scanning)
  {
    FilterFewValid(raw);
    GestureCharacterised(cfg, s, FilterHands(raw));
  }
}
