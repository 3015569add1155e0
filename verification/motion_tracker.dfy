/**
 The per-hand motion tracker and fire rule (`process_hand_gesture`) of the
 Flappy controller, the Rhythm controller and the legacy Rhythm script. The
 three copies differ only in their constants and in whether the firing hand
 must alternate, so one parameterised step function models all three.
 */
module MotionTracker {
  import opened Base

  /** The tuning constants of one controller. */
  datatype Config = Config(
    jumpThreshold: int,          // pixels the hand must rise (strictly more than)
    stillThreshold: int,         // a move smaller than this counts as "still"
    resetAfterStillFrames: nat,  // still frames after which the hand is re-baselined
    jumpCooldownFrames: nat,     // cooldown set after a gesture fires
    alternate: bool)             // the firing hand must differ from the last one

  /** games/flappy_bird/controller.py: alternating hands, no cooldown. */
  const FlappyConfig := Config(32, 10, 20, 0, true)
  /** games/rhythm/controller.py: any hand, 3-frame cooldown. */
  const RhythmConfig := Config(32, 1, 20, 3, false)
  /** rhythm_main.py: any hand, 10-frame cooldown. */
  const LegacyRhythmConfig := Config(32, 1, 20, 10, false)

  /** One entry of `last_hand_positions`: `{'y': .., 'frames_still': ..}`. */
  datatype Track = Track(y: int, framesStill: nat)

  /** The controller's tracking fields. `lastJumpHand` only exists in the
      alternating (Flappy) controller and stays `None` otherwise. */
  datatype State = State(positions: map<Side, Track>, cooldown: nat, lastJumpHand: Option<Side>)

  /** Tracking state right after construction. */
  const FlappyInit := State(map[], 1, None)
  const RhythmInit := State(map[], 0, None)

  /** The new tracking state and the hand that fired, if any (the Flappy
      controller returns `gesture.Some?` as its boolean). */
  datatype StepResult = StepResult(state: State, gesture: Option<Side>)

  function Get(m: map<Side, Track>, k: Side): Option<Track>
  {
    if k in m then Some(m[k]) else None
  }

  /** The cooldown after the unconditional decrement at the start of a call. */
  function Decrement(c: nat): nat
  {
    if c > 0 then c - 1 else c
  }

  /** Position bookkeeping for a tracked hand that does not fire. */
  function Follow(cfg: Config, t: Track, y: int): (r: Track)
    ensures r.y == y
    ensures r.framesStill > 0 <==> Abs(t.y - y) < cfg.stillThreshold
    ensures r.framesStill > 0 ==> r.framesStill == t.framesStill + 1
  {
    Track(y, if Abs(t.y - y) < cfg.stillThreshold then t.framesStill + 1 else 0)
  }

  /** A tracked, non-stale hand whose rise fires a gesture. */
  predicate CanFire(cfg: Config, last: Option<Side>, t: Track, y: int, k: Side)
  {
    t.y - y > cfg.jumpThreshold && (!cfg.alternate || last != Some(k))
  }

  datatype Scan = Scan(positions: map<Side, Track>, fired: Option<Side>)

  /** No hand from position `i` on is labelled `key`. */
  predicate Untouched(hands: seq<Hand>, i: nat, key: Side)
  {
    forall j :: i <= j < |hands| ==> hands[j].tag != Labelled(key)
  }

  /** The loop of the expired-cooldown branch, from hand `i` on: re-baseline
      new or stale hands, fire on the first qualifying rise and stop there,
      otherwise follow the hand. Unlabelled hands are skipped. */
  function ScanFrom(cfg: Config, last: Option<Side>, pos: map<Side, Track>, hands: seq<Hand>, i: nat): (r: Scan)
    requires i <= |hands|
    ensures r.fired.Some? ==>
      && (!cfg.alternate || last != r.fired)
      && r.fired.value in r.positions
      && r.positions[r.fired.value].framesStill == 0
      && r.fired.value in LabelledSides(hands)
    ensures forall key :: Untouched(hands, i, key) ==> Get(r.positions, key) == Get(pos, key)
    decreases |hands| - i
  {
    if i == |hands| then Scan(pos, None)
    else if !hands[i].tag.Labelled? then ScanFrom(cfg, last, pos, hands, i + 1)
    else
      var k := hands[i].tag.side;
      var y := hands[i].y;
      if k !in pos || pos[k].framesStill >= cfg.resetAfterStillFrames then
        ScanFrom(cfg, last, pos[k := Track(y, 0)], hands, i + 1)
      else if CanFire(cfg, last, pos[k], y, k) then
        Scan(pos[k := Track(y, 0)], Some(k))
      else
        ScanFrom(cfg, last, pos[k := Follow(cfg, pos[k], y)], hands, i + 1)
  }

  /** The loop of the cooldown branch, from hand `i` on: positions are
      followed (without the stale re-baseline) but nothing fires. */
  function FollowFrom(cfg: Config, pos: map<Side, Track>, hands: seq<Hand>, i: nat): (r: map<Side, Track>)
    requires i <= |hands|
    ensures forall key :: Untouched(hands, i, key) ==> Get(r, key) == Get(pos, key)
    decreases |hands| - i
  {
    if i == |hands| then pos
    else if !hands[i].tag.Labelled? then FollowFrom(cfg, pos, hands, i + 1)
    else
      var k := hands[i].tag.side;
      var y := hands[i].y;
      FollowFrom(cfg, pos[k := if k in pos then Follow(cfg, pos[k], y) else Track(y, 0)], hands, i + 1)
  }

  /** The clean-up at the end of a call: drop hands not seen this call. */
  function Restrict(pos: map<Side, Track>, keep: set<Side>): (r: map<Side, Track>)
    ensures r.Keys == pos.Keys * keep
    ensures forall k :: k in r ==> r[k] == pos[k]
  {
    map k | k in pos && k in keep :: pos[k]
  }

  /** One call of `process_hand_gesture`; `enabled` is "hand control is on
      and a detector is loaded". */
  function Step(cfg: Config, enabled: bool, s: State, hands: seq<Hand>): (r: StepResult)
    ensures !enabled ==> r == StepResult(s, None)
    ensures enabled && |hands| == 0 ==>
      r == StepResult(State(map[], Decrement(s.cooldown), s.lastJumpHand), None)
    ensures enabled ==> r.state.positions.Keys <= LabelledSides(hands)
    ensures r.gesture.Some? ==>
      && enabled && Decrement(s.cooldown) == 0
      && r.gesture.value in LabelledSides(hands)
      && r.state.cooldown == cfg.jumpCooldownFrames
      && r.gesture.value in r.state.positions
      && r.state.positions[r.gesture.value].framesStill == 0
    ensures r.gesture.Some? && cfg.alternate ==>
      s.lastJumpHand != r.gesture && r.state.lastJumpHand == r.gesture
    ensures r.gesture.None? ==>
      && r.state.lastJumpHand == s.lastJumpHand
      && r.state.cooldown == (if enabled then Decrement(s.cooldown) else s.cooldown)
  {
    if !enabled then StepResult(s, None)
    else
      var cd := Decrement(s.cooldown);
      if |hands| == 0 then StepResult(State(map[], cd, s.lastJumpHand), None)
      else if cd <= 0 then
        var scan := ScanFrom(cfg, s.lastJumpHand, s.positions, hands, 0);
        var tracked := Restrict(scan.positions, LabelledSides(hands));
        match scan.fired
        case None => StepResult(State(tracked, cd, s.lastJumpHand), None)
        case Some(k) =>
          StepResult(State(tracked, cfg.jumpCooldownFrames, if cfg.alternate then Some(k) else s.lastJumpHand), Some(k))
      else
        var tracked := Restrict(FollowFrom(cfg, s.positions, hands, 0), LabelledSides(hands));
        StepResult(State(tracked, cd, s.lastJumpHand), None)
  }

  // ---------------------------------------------------------------------
  // Reference definition of what one call does when every side is claimed
  // by at most one hand (which the hand filter guarantees).
  // ---------------------------------------------------------------------

  /** Hand `h` would fire against the positions at the start of the call. */
  predicate Qualifies(cfg: Config, last: Option<Side>, pos: map<Side, Track>, h: Hand)
  {
    && h.tag.Labelled?
    && h.tag.side in pos
    && pos[h.tag.side].framesStill < cfg.resetAfterStillFrames
    && CanFire(cfg, last, pos[h.tag.side], h.y, h.tag.side)
  }

  /** The first qualifying hand at or after position `i`. */
  function FirstQualifying(cfg: Config, last: Option<Side>, pos: map<Side, Track>, hands: seq<Hand>, i: nat): (r: Option<nat>)
    requires i <= |hands|
    ensures r.Some? ==> i <= r.value < |hands| && Qualifies(cfg, last, pos, hands[r.value])
    ensures r.Some? ==> forall j :: i <= j < r.value ==> !Qualifies(cfg, last, pos, hands[j])
    ensures r.None? ==> forall j :: i <= j < |hands| ==> !Qualifies(cfg, last, pos, hands[j])
    decreases |hands| - i
  {
    if i == |hands| then None
    else if Qualifies(cfg, last, pos, hands[i]) then Some(i)
    else FirstQualifying(cfg, last, pos, hands, i + 1)
  }

  /** The new entry of a hand that is processed and does not fire: new and
      (when `scanning`) stale hands are re-baselined, others followed. */
  function Advanced(cfg: Config, prev: Option<Track>, y: int, scanning: bool): Track
  {
    match prev
    case None => Track(y, 0)
    case Some(t) =>
      if scanning && t.framesStill >= cfg.resetAfterStillFrames then Track(y, 0) else Follow(cfg, t, y)
  }

  /** The expected entry for hand `j` after the loop, when the loop stops
      at `stop` (the firing hand) or runs to the end. */
  function Expected(cfg: Config, pos: map<Side, Track>, hands: seq<Hand>, stop: Option<nat>, j: nat, scanning: bool): Option<Track>
    requires j < |hands| && hands[j].tag.Labelled?
  {
    var k := hands[j].tag.side;
    if stop.None? || j < stop.value then Some(Advanced(cfg, Get(pos, k), hands[j].y, scanning))
    else if j == stop.value then Some(Track(hands[j].y, 0))
    else Get(pos, k)
  }

  function SideAt(hands: seq<Hand>, j: Option<nat>): Option<Side>
  {
    if j.Some? && j.value < |hands| && hands[j.value].tag.Labelled? then Some(hands[j.value].tag.side) else None
  }

  /** `pos` still agrees with `pos0` on every side claimed at or after `i`. */
  predicate AgreeAhead(pos: map<Side, Track>, pos0: map<Side, Track>, hands: seq<Hand>, i: nat)
  {
    forall j :: i <= j < |hands| && hands[j].tag.Labelled? ==>
      Get(pos, hands[j].tag.side) == Get(pos0, hands[j].tag.side)
  }

  lemma {:induction false} ScanMatchesReference(cfg: Config, last: Option<Side>, pos0: map<Side, Track>,
                                                pos: map<Side, Track>, hands: seq<Hand>, i: nat)
    requires i <= |hands| && DistinctSides(hands) && AgreeAhead(pos, pos0, hands, i)
    ensures var sc := ScanFrom(cfg, last, pos, hands, i);
      var f := FirstQualifying(cfg, last, pos0, hands, i);
      && sc.fired == SideAt(hands, f)
      && forall j :: i <= j < |hands| && hands[j].tag.Labelled? ==>
           Get(sc.positions, hands[j].tag.side) == Expected(cfg, pos0, hands, f, j, true)
    decreases |hands| - i
  {
    if i < |hands| {
      var sc := ScanFrom(cfg, last, pos, hands, i);
      var f := FirstQualifying(cfg, last, pos0, hands, i);
      if !hands[i].tag.Labelled? {
        ScanMatchesReference(cfg, last, pos0, pos, hands, i + 1);
      } else {
        var k := hands[i].tag.side;
        var y := hands[i].y;
        assert Get(pos, k) == Get(pos0, k);
        var t := if k !in pos || pos[k].framesStill >= cfg.resetAfterStillFrames then Track(y, 0)
                 else if CanFire(cfg, last, pos[k], y, k) then Track(y, 0)
                 else Follow(cfg, pos[k], y);
        var pos' := pos[k := t];
        assert forall j :: i < j < |hands| && hands[j].tag.Labelled? ==> hands[j].tag.side != k;
        assert AgreeAhead(pos', pos0, hands, i + 1);
        if k in pos && pos[k].framesStill < cfg.resetAfterStillFrames && CanFire(cfg, last, pos[k], y, k) {
          assert f == Some(i);
        } else {
          assert f == FirstQualifying(cfg, last, pos0, hands, i + 1);
          ScanMatchesReference(cfg, last, pos0, pos', hands, i + 1);
          assert Untouched(hands, i + 1, k);
          assert Get(sc.positions, k) == Some(t);
        }
      }
    }
  }

  lemma {:induction false} FollowMatchesReference(cfg: Config, pos0: map<Side, Track>,
                                                  pos: map<Side, Track>, hands: seq<Hand>, i: nat)
    requires i <= |hands| && DistinctSides(hands) && AgreeAhead(pos, pos0, hands, i)
    ensures var m := FollowFrom(cfg, pos, hands, i);
      forall j :: i <= j < |hands| && hands[j].tag.Labelled? ==>
        Get(m, hands[j].tag.side) == Expected(cfg, pos0, hands, None, j, false)
    decreases |hands| - i
  {
    if i < |hands| {
      if !hands[i].tag.Labelled? {
        FollowMatchesReference(cfg, pos0, pos, hands, i + 1);
      } else {
        var k := hands[i].tag.side;
        var y := hands[i].y;
        assert Get(pos, k) == Get(pos0, k);
        var pos' := pos[k := if k in pos then Follow(cfg, pos[k], y) else Track(y, 0)];
        assert forall j :: i < j < |hands| && hands[j].tag.Labelled? ==> hands[j].tag.side != k;
        assert AgreeAhead(pos', pos0, hands, i + 1);
        FollowMatchesReference(cfg, pos0, pos', hands, i + 1);
        assert Untouched(hands, i + 1, k);
      }
    }
  }

  /** When every side is claimed at most once: a call fires exactly when the
      cooldown has expired and some tracked, non-stale hand rose by more than
      the threshold (and, when alternating, is not the last jump hand); the
      first such hand fires. Each hand processed before it is re-baselined
      or followed, the firing hand is reset to its new y, and hands after it
      keep their old entry (a new one is not added). */
  lemma GestureCharacterised(cfg: Config, s: State, hands: seq<Hand>)
    requires DistinctSides(hands) && |hands| > 0
    ensures var r := Step(cfg, true, s, hands);
      var scanning := Decrement(s.cooldown) == 0;
      var f := if scanning then FirstQualifying(cfg, s.lastJumpHand, s.positions, hands, 0) else None;
      && r.gesture == SideAt(hands, f)
      && forall j :: 0 <= j < |hands| && hands[j].tag.Labelled? ==>
           Get(r.state.positions, hands[j].tag.side) == Expected(cfg, s.positions, hands, f, j, scanning)
  {
    assert AgreeAhead(s.positions, s.positions, hands, 0);
    var r := Step(cfg, true, s, hands);
    forall j | 0 <= j < |hands| && hands[j].tag.Labelled?
      ensures hands[j].tag.side in LabelledSides(hands)
    {
    }
    if Decrement(s.cooldown) == 0 {
      ScanMatchesReference(cfg, s.lastJumpHand, s.positions, s.positions, hands, 0);
    } else {
      FollowMatchesReference(cfg, s.positions, s.positions, hands, 0);
    }
  }

  // ---------------------------------------------------------------------
  // Properties of runs: one call per processed camera frame.
  // ---------------------------------------------------------------------

  /** The outputs of successive calls, one per frame. */
  function Run(cfg: Config, enabled: bool, s: State, frames: seq<seq<Hand>>): (outs: seq<Option<Side>>)
    ensures |outs| == |frames|
    decreases |frames|
  {
    if |frames| == 0 then []
    else
      var r := Step(cfg, enabled, s, frames[0]);
      [r.gesture] + Run(cfg, enabled, r.state, frames[1..])
  }

  /** The hands that fired, in order. */
  function Fired(outs: seq<Option<Side>>): seq<Side>
  {
    if |outs| == 0 then []
    else (if outs[0].Some? then [outs[0].value] else []) + Fired(outs[1..])
  }

  /** Flappy's alternation rule: in any run, every jump comes from the other
      hand than the jump before it (the first from the other hand than the
      state's `lastJumpHand`). */
  lemma {:induction false} AlternatingJumps(cfg: Config, enabled: bool, s: State, frames: seq<seq<Hand>>)
    requires cfg.alternate
    ensures AlternatesAfter(s.lastJumpHand, Fired(Run(cfg, enabled, s, frames)))
    ensures var ks := Fired(Run(cfg, enabled, s, frames));
      forall i :: 0 <= i < |ks| - 1 ==> ks[i + 1] == Other(ks[i])
    decreases |frames|
  {
    if |frames| > 0 {
      var r := Step(cfg, enabled, s, frames[0]);
      var rest := Run(cfg, enabled, r.state, frames[1..]);
      AlternatingJumps(cfg, enabled, r.state, frames[1..]);
      var outs := Run(cfg, enabled, s, frames);
      assert outs[1..] == rest;
      var ks := Fired(outs);
      if r.gesture.Some? {
        assert ks == [r.gesture.value] + Fired(rest);
        assert ks[1..] == Fired(rest);
      } else {
        assert ks == Fired(rest);
      }
    }
    AlternatesPairwise(s.lastJumpHand, Fired(Run(cfg, enabled, s, frames)));
  }

  /** While the cooldown outlasts the frames, nothing fires. */
  lemma {:induction false} QuietWhileCoolingDown(cfg: Config, enabled: bool, s: State, frames: seq<seq<Hand>>)
    requires |frames| < s.cooldown
    ensures Fired(Run(cfg, enabled, s, frames)) == []
    decreases |frames|
  {
    if |frames| > 0 {
      var r := Step(cfg, enabled, s, frames[0]);
      QuietWhileCoolingDown(cfg, enabled, r.state, frames[1..]);
      var outs := Run(cfg, enabled, s, frames);
      assert outs[1..] == Run(cfg, enabled, r.state, frames[1..]);
    }
  }

  /** After a gesture the next `jumpCooldownFrames - 1` calls return nothing,
      whatever they see: 2 calls for the Rhythm controller, 9 for the legacy
      Rhythm script, none for Flappy. */
  lemma QuietAfterGesture(cfg: Config, enabled: bool, s: State, hands: seq<Hand>, later: seq<seq<Hand>>)
    requires Step(cfg, enabled, s, hands).gesture.Some?
    requires |later| < cfg.jumpCooldownFrames
    ensures Fired(Run(cfg, enabled, Step(cfg, enabled, s, hands).state, later)) == []
  {
    QuietWhileCoolingDown(cfg, enabled, Step(cfg, enabled, s, hands).state, later);
  }

  /** With Flappy's shipped constants (initial cooldown 1, cooldown frames 0)
      the cooldown is 0 after every enabled call, so it never blocks a jump. */
  lemma FlappyCooldownNeverBlocks(s: State, hands: seq<Hand>)
    requires s.cooldown <= 1
    ensures Step(FlappyConfig, true, s, hands).state.cooldown == 0
    ensures Decrement(Step(FlappyConfig, true, s, hands).state.cooldown) == 0
  {
  }

  /** With a still threshold of 1 pixel and integer y, `frames_still` counts
      consecutive frames with exactly the same y. */
  lemma RhythmStillMeansUnmoved(t: Track, y: int)
    ensures Follow(RhythmConfig, t, y).framesStill == (if t.y == y then t.framesStill + 1 else 0)
  {
  }
}
