/**
 The rhythm game reducer (`RhythmGame`): gestures hit notes in their lane
 (long notes first, then the closest regular note), every update advances
 the notes, counts misses, runs the fever-mode timer, spawns up to 50 notes
 and, once they are all gone, a 300-frame freestyle finale that ends the
 game.
 */
module RhythmGame {
  import opened Base
  import opened RhythmNotes

  const FeverModeDuration := 300
  const FeverModeTriggerInterval := 400
  const FinaleModeDuration := 300
  const FinaleHitCooldown := 10
  const FinalePointsPerHit := 50
  const SpawnInterval := 30
  const FeverSpawnInterval := 15
  const MaxNotes := 50

  datatype Game = Game(
    notes: seq<Note>,
    score: nat,
    combo: nat,
    maxCombo: nat,
    perfectHits: nat,
    goodHits: nat,
    okHits: nat,
    misses: nat,
    frameCount: nat,
    over: bool,
    started: bool,
    lastHitHand: Option<Side>,
    spawned: nat,
    maxNotes: nat,
    fever: bool,
    feverTimer: int,
    nextFeverAt: int,
    longNoteHits: nat,
    finale: bool,
    finaleTimer: int,
    finaleCooldown: nat,
    finaleHits: nat,
    finalePoints: nat)

  /** What every reachable game satisfies: fever and finale never overlap,
      at most `max_notes` notes are ever spawned (each one is in the list),
      the best combo bounds the current one, and a regular note that scored
      is out of play. */
  predicate Valid(g: Game)
  {
    WellFormed(g) && g.maxCombo >= g.combo
  }

  /** `Valid` without the combo bound, which `check_hit` breaks until its
      caller updates the best combo. */
  predicate WellFormed(g: Game)
  {
    && !(g.fever && g.finale)
    && g.spawned <= g.maxNotes
    && |g.notes| == g.spawned
    && forall i :: 0 <= i < |g.notes| && g.notes[i].kind.Regular? && g.notes[i].hit ==> !g.notes[i].active
  }

  /** `reset`. */
  function Reset(): (g: Game)
    ensures Valid(g)
    ensures g.notes == [] && g.score == 0 && g.combo == 0 && g.misses == 0
    ensures !g.started && !g.over && !g.fever && !g.finale
    ensures g.maxNotes == MaxNotes && g.nextFeverAt == FeverModeTriggerInterval
  {
    Game([], 0, 0, 0, 0, 0, 0, 0, 0, false, false, None, 0, MaxNotes,
         false, 0, FeverModeTriggerInterval, 0, false, 0, 0, 0, 0)
  }

  function Multiplier(g: Game): (m: nat)
    ensures m == 1 || m == 2
    ensures m == 2 <==> g.fever
  {
    if g.fever then 2 else 1
  }

  /** Every note keeps its slot and never loses its `hit` flag: the list
      only grows at the end. */
  predicate NotesPersist(before: seq<Note>, after: seq<Note>)
  {
    |before| <= |after| &&
    forall i :: 0 <= i < |before| ==> (before[i].hit ==> after[i].hit) && after[i].lane == before[i].lane
  }

  // ---------------------------------------------------------------------
  // `check_hit`.
  // ---------------------------------------------------------------------

  /** A long note in `hand`'s lane that can take a rapid hit. */
  predicate LongTarget(n: Note, hand: Side)
  {
    n.lane == hand && CanHit(n)
  }

  /** The first long note from position `i` on that can take a hit. */
  function FirstLong(notes: seq<Note>, hand: Side, i: nat): (r: Option<nat>)
    requires i <= |notes|
    ensures r.None? ==> forall j :: i <= j < |notes| ==> !LongTarget(notes[j], hand)
    ensures r.Some? ==>
      && i <= r.value < |notes| && LongTarget(notes[r.value], hand)
      && forall j :: i <= j < r.value ==> !LongTarget(notes[j], hand)
    decreases |notes| - i
  {
    if i == |notes| then None
    else if LongTarget(notes[i], hand) then Some(i)
    else FirstLong(notes, hand, i + 1)
  }

  /** A regular note in `hand`'s lane that is in play and not yet hit. */
  predicate RegularTarget(n: Note, hand: Side)
  {
    n.active && n.lane == hand && !n.hit && n.kind.Regular?
  }

  /** The regular target among the first `k` notes closest to the hit
      line, the earliest one on ties (Python's `min` with a key). */
  function Closest(notes: seq<Note>, hand: Side, k: nat): (r: Option<nat>)
    requires k <= |notes|
    ensures r.None? <==> forall j :: 0 <= j < k ==> !RegularTarget(notes[j], hand)
    ensures r.Some? ==> r.value < k && RegularTarget(notes[r.value], hand)
    ensures r.Some? ==> forall j :: 0 <= j < k && RegularTarget(notes[j], hand) ==>
      Distance(notes[r.value]) <= Distance(notes[j])
    ensures r.Some? ==> forall j :: 0 <= j < r.value && RegularTarget(notes[j], hand) ==>
      Distance(notes[r.value]) < Distance(notes[j])
  {
    if k == 0 then None
    else
      var c := Closest(notes, hand, k - 1);
      if !RegularTarget(notes[k - 1], hand) then c
      else if c.None? || Distance(notes[k - 1]) < Distance(notes[c.value]) then Some(k - 1)
      else c
  }

  datatype HitKind = LongHit | Scored(quality: Quality)

  /** A rapid hit on long note `i`. */
  function HitLong(g: Game, i: nat): (r: Game)
    requires WellFormed(g) && i < |g.notes| && CanHit(g.notes[i])
    ensures WellFormed(r)
    ensures NotesPersist(g.notes, r.notes) && |r.notes| == |g.notes|
    ensures r.notes == g.notes[i := RegisterHit(g.notes[i]).0]
    ensures r.score == g.score + LongNotePointsPerHit * Multiplier(g)
    ensures r.combo == g.combo + 1 && r.longNoteHits == g.longNoteHits + 1
    ensures r == g.(notes := r.notes, score := r.score, combo := r.combo, longNoteHits := r.longNoteHits)
  {
    var (n', points) := RegisterHit(g.notes[i]);
    g.(notes := g.notes[i := n'], score := g.score + points * Multiplier(g), combo := g.combo + 1,
       longNoteHits := g.longNoteHits + 1)
  }

  /** Regular note `c` scores with quality `q`: it is marked hit and leaves
      play. */
  function HitRegular(g: Game, c: nat, q: Quality): (r: Game)
    requires WellFormed(g) && c < |g.notes|
    ensures WellFormed(r)
    ensures NotesPersist(g.notes, r.notes) && |r.notes| == |g.notes|
    ensures r.notes == g.notes[c := g.notes[c].(hit := true, active := false)]
    ensures r.score == g.score + BasePoints(q) * Multiplier(g) && r.combo == g.combo + 1
    ensures r.perfectHits == g.perfectHits + (if q == Perfect then 1 else 0)
    ensures r.goodHits == g.goodHits + (if q == Good then 1 else 0)
    ensures r.okHits == g.okHits + (if q == Fine then 1 else 0)
    ensures r == g.(notes := r.notes, score := r.score, combo := r.combo,
                    perfectHits := r.perfectHits, goodHits := r.goodHits, okHits := r.okHits)
  {
    var g1 := g.(notes := g.notes[c := g.notes[c].(hit := true, active := false)],
                 score := g.score + BasePoints(q) * Multiplier(g), combo := g.combo + 1);
    match q
    case Perfect => g1.(perfectHits := g1.perfectHits + 1)
    case Good => g1.(goodHits := g1.goodHits + 1)
    case Fine => g1.(okHits := g1.okHits + 1)
  }

  /** `check_hit`: a rapid hit on the first hittable long note of the lane
      if there is one; otherwise the closest regular note of the lane is
      judged by its distance, and scores (and leaves play) when within 60
      pixels. */
  function CheckHit(g: Game, hand: Side): (r: (Game, Option<HitKind>))
    requires WellFormed(g)
    ensures WellFormed(r.0)
    ensures r.1.None? ==> r.0 == g
    ensures NotesPersist(g.notes, r.0.notes) && |r.0.notes| == |g.notes|
    ensures r.0.spawned == g.spawned && r.0.fever == g.fever && r.0.finale == g.finale
    ensures r.0.misses == g.misses && r.0.maxCombo == g.maxCombo
    ensures r.0.started == g.started && r.0.over == g.over
    ensures r.1.Some? ==> r.0.combo == g.combo + 1
    // long notes take priority: the first hittable one takes the hit
    ensures r.1 == Some(LongHit) <==> exists i :: 0 <= i < |g.notes| && LongTarget(g.notes[i], hand)
    ensures r.1 == Some(LongHit) ==>
      exists i :: 0 <= i < |g.notes| && LongTarget(g.notes[i], hand) && r.0 == HitLong(g, i) &&
        forall j :: 0 <= j < i ==> !LongTarget(g.notes[j], hand)
    // otherwise the closest regular target is judged; it was unhit and is hit and out of play after
    ensures r.1.Some? && r.1.value.Scored? ==>
      var c := Closest(g.notes, hand, |g.notes|);
      && c.Some? && RegularTarget(g.notes[c.value], hand)
      && (forall j :: 0 <= j < |g.notes| && RegularTarget(g.notes[j], hand) ==>
            Distance(g.notes[c.value]) <= Distance(g.notes[j]))
      && (forall j :: 0 <= j < c.value && RegularTarget(g.notes[j], hand) ==>
            Distance(g.notes[c.value]) < Distance(g.notes[j]))
      && Classify(Distance(g.notes[c.value])) == Some(r.1.value.quality)
      && r.0 == HitRegular(g, c.value, r.1.value.quality)
    // no hit exactly when no long note is hittable and no regular target is within the ok window
    ensures r.1.None? <==>
      && (forall i :: 0 <= i < |g.notes| ==> !LongTarget(g.notes[i], hand))
      && (forall i :: 0 <= i < |g.notes| && RegularTarget(g.notes[i], hand) ==> Distance(g.notes[i]) > OkWindow)
  {
    match FirstLong(g.notes, hand, 0)
    case Some(i) => (HitLong(g, i), Some(LongHit))
    case None => CheckRegular(g, hand)
  }

  /** The regular-note half of `check_hit`: the closest regular target is
      judged by its distance and scores when within the ok window. */
  function CheckRegular(g: Game, hand: Side): (r: (Game, Option<HitKind>))
    requires WellFormed(g)
    ensures r.1.None? ==> r.0 == g
    ensures r.1 != Some(LongHit)
    ensures r.1.Some? ==>
      var c := Closest(g.notes, hand, |g.notes|);
      && c.Some? && RegularTarget(g.notes[c.value], hand)
      && Classify(Distance(g.notes[c.value])) == Some(r.1.value.quality)
      && r.0 == HitRegular(g, c.value, r.1.value.quality)
    ensures r.1.None? <==>
      forall i :: 0 <= i < |g.notes| && RegularTarget(g.notes[i], hand) ==> Distance(g.notes[i]) > OkWindow
  {
    match Closest(g.notes, hand, |g.notes|)
    case None => (g, None)
    case Some(c) =>
      match Classify(Distance(g.notes[c]))
      case None => (g, None)
      case Some(q) => (HitRegular(g, c, q), Some(Scored(q)))
  }

  // ---------------------------------------------------------------------
  // `check_missed_notes`.
  // ---------------------------------------------------------------------

  /** One note of the miss scan: a regular note still in play and unhit
      below y = 580 leaves play; a long note that left play without a single
      hit is flagged `hit` so that it is counted once. */
  function MissNote(n: Note): (r: (Note, bool))
    ensures r.1 ==>
      || (n.kind.Regular? && n.active && !n.hit && n.y > HitZoneY + OkWindow + 20.0 && r.0 == n.(active := false))
      || (n.kind.Long? && !n.active && n.kind.hitCount == 0 && !n.hit && r.0 == n.(hit := true))
    ensures r.1 <==> IsMiss(n)
    ensures !r.1 ==> r.0 == n
    ensures r.0.hit == n.hit || r.0.hit
    ensures r.0.y == n.y && r.0.lane == n.lane && r.0.kind == n.kind && (r.0.active ==> n.active)
  {
    match n.kind
    case Long(count, _, _, _) =>
      if !n.active && count == 0 && !n.hit then (n.(hit := true), true) else (n, false)
    case Regular =>
      if n.active && !n.hit && n.y > HitZoneY + OkWindow + 20.0 then (n.(active := false), true) else (n, false)
  }

  /** A note the miss scan counts: a regular note still in play and unhit
      more than 80 pixels below the hit line, or a long note that left play
      without a single hit and was not counted before. */
  predicate IsMiss(n: Note)
  {
    || (n.kind.Regular? && n.active && !n.hit && n.y > HitZoneY + OkWindow + 20.0)
    || (n.kind.Long? && !n.active && n.kind.hitCount == 0 && !n.hit)
  }

  /** The number of missed notes in `notes`. */
  function MissCount(notes: seq<Note>): (c: nat)
    ensures c <= |notes|
    ensures c == 0 <==> forall i :: 0 <= i < |notes| ==> !IsMiss(notes[i])
  {
    if |notes| == 0 then 0
    else
      assert forall i :: 1 <= i < |notes| ==> notes[i] == notes[1..][i - 1];
      (if IsMiss(notes[0]) then 1 else 0) + MissCount(notes[1..])
  }

  /** Scanning a scanned note finds nothing more. */
  lemma MissNoteOnce(n: Note)
    ensures MissNote(MissNote(n).0) == (MissNote(n).0, false)
  {
  }

  /** The scan over all notes: the new notes and the number of misses. */
  function MarkMissed(notes: seq<Note>): (r: (seq<Note>, nat))
    ensures |r.0| == |notes|
    ensures forall i :: 0 <= i < |notes| ==> r.0[i] == MissNote(notes[i]).0
    // one miss per missed note
    ensures r.1 == MissCount(notes)
  {
    if |notes| == 0 then ([], 0)
    else
      var (n, missed) := MissNote(notes[0]);
      var rest := MarkMissed(notes[1..]);
      ([n] + rest.0, (if missed then 1 else 0) + rest.1)
  }

  /** `check_missed_notes`. */
  function CheckMissed(g: Game): (r: Game)
    requires Valid(g)
    ensures Valid(r)
    ensures r.score == g.score && r.spawned == g.spawned && r.fever == g.fever && r.finale == g.finale
    ensures NotesPersist(g.notes, r.notes) && |r.notes| == |g.notes|
    // every missed note is marked, and counted once
    ensures r.notes == MarkMissed(g.notes).0
    ensures forall i :: 0 <= i < |g.notes| ==> r.notes[i] == MissNote(g.notes[i]).0
    ensures r.misses == g.misses + MissCount(g.notes)
    ensures r.misses > g.misses <==> exists i :: 0 <= i < |g.notes| && IsMiss(g.notes[i])
    ensures r.misses > g.misses ==> r.combo == 0
    ensures r.misses == g.misses ==> r == g
  {
    var (notes, missed) := MarkMissed(g.notes);
    if missed == 0 then
      MarkMissedNone(g.notes);
      assert notes == g.notes;
      g
    else g.(notes := notes, misses := g.misses + missed, combo := 0)
  }

  lemma {:induction false} MarkMissedNone(notes: seq<Note>)
    requires MarkMissed(notes).1 == 0
    ensures MarkMissed(notes).0 == notes
  {
    if |notes| > 0 {
      MarkMissedNone(notes[1..]);
    }
  }

  lemma {:induction false} MarkMissedIdempotent(notes: seq<Note>)
    ensures MarkMissed(MarkMissed(notes).0) == (MarkMissed(notes).0, 0)
  {
    if |notes| > 0 {
      var once := MarkMissed(notes).0;
      MissNoteOnce(notes[0]);
      MarkMissedIdempotent(notes[1..]);
      assert once[1..] == MarkMissed(notes[1..]).0;
    }
  }

  /** A miss is counted once: a second scan right after the first one
      changes nothing. */
  lemma CheckMissedIdempotent(g: Game)
    requires Valid(g)
    ensures CheckMissed(CheckMissed(g)) == CheckMissed(g)
  {
    MarkMissedIdempotent(g.notes);
  }

  // ---------------------------------------------------------------------
  // `handle_hand_gesture`.
  // ---------------------------------------------------------------------

  function BestCombo(g: Game): (r: Game)
    ensures r == g.(maxCombo := r.maxCombo)
    ensures r.maxCombo >= r.combo && r.maxCombo >= g.maxCombo
  {
    if g.combo > g.maxCombo then g.(maxCombo := g.combo) else g
  }

  /** `handle_hand_gesture`: the first gesture starts the game; after game
      over gestures are dropped; in the finale any gesture scores 50 when
      the finale cooldown has run out; otherwise the gesture is a
      `check_hit`, and a gesture that hits nothing breaks the combo. */
  function HandleGesture(g: Game, hand: Side): (r: Game)
    requires Valid(g)
    ensures Valid(r)
    ensures !g.started ==> r == g.(started := true)
    ensures g.started && g.over ==> r == g
    ensures r.score >= g.score
    ensures NotesPersist(g.notes, r.notes)
    ensures g.started && !g.over ==> r.lastHitHand == Some(hand)
    ensures g.started && !g.over && g.finale ==>
      && r.notes == g.notes
      && (g.finaleCooldown <= 0 ==> r.score == g.score + FinalePointsPerHit && r.finaleCooldown == FinaleHitCooldown
                                    && r.combo == g.combo + 1)
      && (g.finaleCooldown > 0 ==> r.score == g.score && r.finaleCooldown == g.finaleCooldown && r.combo == g.combo)
    ensures g.started && !g.over && !g.finale ==>
      (r.combo == 0 <==> CheckHit(g, hand).1.None?) &&
      r.score == CheckHit(g, hand).0.score
    // outside the finale the notes, the score and every hit counter are `check_hit`'s
    ensures g.started && !g.over && !g.finale ==>
      var c := CheckHit(g, hand).0;
      && r == c.(combo := r.combo, maxCombo := r.maxCombo, lastHitHand := Some(hand))
      && r.notes == c.notes && r.perfectHits == c.perfectHits && r.goodHits == c.goodHits
      && r.okHits == c.okHits && r.longNoteHits == c.longNoteHits
  {
    if !g.started then g.(started := true)
    else if g.over then g
    else if g.finale then
      if g.finaleCooldown <= 0 then
        BestCombo(g.(finaleHits := g.finaleHits + 1, finalePoints := g.finalePoints + FinalePointsPerHit,
                     score := g.score + FinalePointsPerHit, combo := g.combo + 1,
                     finaleCooldown := FinaleHitCooldown, lastHitHand := Some(hand)))
      else g.(lastHitHand := Some(hand))
    else
      var (g1, q) := CheckHit(g, hand);
      var g2 := if q.None? then g1.(combo := 0) else g1;
      BestCombo(g2.(lastHitHand := Some(hand)))
  }

  // ---------------------------------------------------------------------
  // `update`, phase by phase.
  // ---------------------------------------------------------------------

  /** The random choices of `spawn_note`: the lane and whether the note is
      long. */
  datatype SpawnChoice = SpawnChoice(lane: Side, long: bool)

  /** The fever-mode trigger and timer. */
  function FeverPhase(g: Game): (r: Game)
    ensures r == g.(fever := r.fever, feverTimer := r.feverTimer, nextFeverAt := r.nextFeverAt)
    ensures g.finale && !g.fever ==> !r.fever
    ensures !g.fever && r.fever ==> g.frameCount >= g.nextFeverAt && r.feverTimer == FeverModeDuration - 1
    ensures g.fever && !r.fever ==> r.nextFeverAt == g.frameCount + FeverModeTriggerInterval
    // fever starts once the trigger frame is reached outside fever and finale, and its first frame is counted
    ensures !g.fever && !g.finale && g.frameCount >= g.nextFeverAt ==>
      r.fever && r.feverTimer == FeverModeDuration - 1 && r.nextFeverAt == g.nextFeverAt
    // while on, it counts down one per frame and ends when the timer reaches zero
    ensures g.fever && g.feverTimer > 1 ==>
      r.fever && r.feverTimer == g.feverTimer - 1 && r.nextFeverAt == g.nextFeverAt
    ensures g.fever && g.feverTimer <= 1 ==>
      !r.fever && r.feverTimer == g.feverTimer - 1 && r.nextFeverAt == g.frameCount + FeverModeTriggerInterval
    // otherwise nothing changes
    ensures !g.fever && (g.finale || g.frameCount < g.nextFeverAt) ==> r == g
  {
    var g1 := if g.frameCount >= g.nextFeverAt && !g.fever && !g.finale
      then g.(fever := true, feverTimer := FeverModeDuration) else g;
    if g1.fever then
      var t := g1.feverTimer - 1;
      if t <= 0 then g1.(fever := false, feverTimer := t, nextFeverAt := g1.frameCount + FeverModeTriggerInterval)
      else g1.(feverTimer := t)
    else g1
  }

  /** The spawn step: every 30th frame (15th in fever mode) while fewer than
      `max_notes` notes were spawned and the finale has not started. */
  function SpawnPhase(g: Game, choice: SpawnChoice): (r: Game)
    requires Valid(g)
    ensures Valid(r)
    ensures r.spawned == g.spawned || r.spawned == g.spawned + 1
    ensures r.spawned == g.spawned + 1 <==>
      && g.frameCount % (if g.fever then FeverSpawnInterval else SpawnInterval) == 0
      && g.spawned < g.maxNotes && !g.finale
    ensures r.spawned == g.spawned ==> r == g
    ensures r.spawned == g.spawned + 1 ==>
      r == g.(notes := g.notes + [NewNote(choice.lane, choice.long, g.fever)], spawned := g.spawned + 1)
  {
    var interval := if g.fever then FeverSpawnInterval else SpawnInterval;
    if g.frameCount % interval == 0 && g.spawned < g.maxNotes && !g.finale then
      g.(notes := g.notes + [NewNote(choice.lane, choice.long, g.fever)], spawned := g.spawned + 1)
    else g
  }

  function UpdateNotes(notes: seq<Note>): (r: seq<Note>)
    ensures |r| == |notes|
    ensures forall i :: 0 <= i < |notes| ==> r[i] == UpdateNote(notes[i])
  {
    if |notes| == 0 then [] else [UpdateNote(notes[0])] + UpdateNotes(notes[1..])
  }

  predicate NoActiveNotes(notes: seq<Note>)
  {
    forall i :: 0 <= i < |notes| ==> !notes[i].active
  }

  /** The finale trigger: all notes spawned and none left in play. */
  function FinaleStart(g: Game): (r: Game)
    requires Valid(g)
    ensures Valid(r)
    ensures !g.finale && r.finale <==> !g.finale && g.spawned >= g.maxNotes && NoActiveNotes(g.notes)
    ensures !g.finale && r.finale ==> r == g.(finale := true, finaleTimer := FinaleModeDuration, fever := false)
    ensures !(!g.finale && r.finale) ==> r == g
  {
    if g.spawned >= g.maxNotes && !g.finale && NoActiveNotes(g.notes) then
      g.(finale := true, finaleTimer := FinaleModeDuration, fever := false)
    else g
  }

  /** `update`, with the random spawn choice as input. */
  function Update(g: Game, choice: SpawnChoice): (r: Game)
    requires Valid(g)
    ensures Valid(r)
    ensures !g.started || g.over ==> r == g
    ensures r.score == g.score
    ensures NotesPersist(g.notes, r.notes)
    ensures r.started == g.started
    ensures g.started && !g.over ==> r.frameCount == g.frameCount + 1
    // the finale counts down one per update and ends the game at zero
    ensures g.started && !g.over && g.finale ==>
      r.finale && r.finaleTimer == g.finaleTimer - 1 && (r.over <==> g.finaleTimer <= 1)
    ensures g.started && !g.over && !g.finale ==> !r.over
    // the finale begins only once every note was spawned and none is in play
    ensures !g.finale && r.finale ==>
      r.finaleTimer == FinaleModeDuration && r.spawned >= r.maxNotes && NoActiveNotes(r.notes) && !r.fever
  {
    if !g.started || g.over then g
    else
      var g2 := Tick(g);
      if g2.finale && g2.finaleTimer <= 0 then g2.(over := true)
      else Phases(g2, choice)
  }

  /** The counters at the start of a running `update`: one more frame, the
      finale hit cooldown and, in the finale, the finale timer. */
  function Tick(g: Game): (r: Game)
    ensures r == g.(frameCount := g.frameCount + 1, finaleCooldown := r.finaleCooldown, finaleTimer := r.finaleTimer)
    ensures r.finaleTimer == if g.finale then g.finaleTimer - 1 else g.finaleTimer
    ensures Valid(g) ==> Valid(r)
  {
    var g1 := g.(frameCount := g.frameCount + 1,
                 finaleCooldown := if g.finaleCooldown > 0 then g.finaleCooldown - 1 else g.finaleCooldown);
    if g1.finale then g1.(finaleTimer := g1.finaleTimer - 1) else g1
  }

  /** The part of `update` after the timers: fever mode, spawning, note
      movement, misses (outside the finale) and the finale trigger. */
  function Phases(g: Game, choice: SpawnChoice): (r: Game)
    requires Valid(g)
    ensures Valid(r)
    ensures r.score == g.score && r.started == g.started && r.over == g.over && r.frameCount == g.frameCount
    ensures NotesPersist(g.notes, r.notes)
    ensures g.finale ==> r.finale && r.finaleTimer == g.finaleTimer
    ensures !g.finale && r.finale ==>
      r.finaleTimer == FinaleModeDuration && r.spawned >= r.maxNotes && NoActiveNotes(r.notes) && !r.fever
  {
    FinaleStart(FallAndMiss(FeverAndSpawn(g, choice)))
  }

  /** Fever mode, then spawning at the interval fever mode sets. */
  function FeverAndSpawn(g: Game, choice: SpawnChoice): (r: Game)
    requires Valid(g)
    ensures Valid(r)
    ensures r == g.(fever := r.fever, feverTimer := r.feverTimer, nextFeverAt := r.nextFeverAt,
                    notes := r.notes, spawned := r.spawned)
    ensures var f := FeverPhase(g);
      r.fever == f.fever && r.feverTimer == f.feverTimer && r.nextFeverAt == f.nextFeverAt
    ensures r.spawned == g.spawned || r.spawned == g.spawned + 1
    ensures r.spawned == g.spawned + 1 <==>
      && g.frameCount % (if r.fever then FeverSpawnInterval else SpawnInterval) == 0
      && g.spawned < g.maxNotes && !g.finale
    ensures r.spawned == g.spawned ==> r.notes == g.notes
    ensures r.spawned == g.spawned + 1 ==> r.notes == g.notes + [NewNote(choice.lane, choice.long, r.fever)]
  {
    SpawnPhase(FeverPhase(g), choice)
  }

  /** Notes falling one frame, then the miss scan when not in the finale. */
  function FallAndMiss(g: Game): (r: Game)
    requires Valid(g)
    ensures Valid(r)
    ensures r == g.(notes := r.notes, misses := r.misses, combo := r.combo)
    ensures NotesPersist(g.notes, r.notes) && |r.notes| == |g.notes|
    ensures forall i :: 0 <= i < |g.notes| ==>
      r.notes[i] == (if g.finale then UpdateNote(g.notes[i]) else MissNote(UpdateNote(g.notes[i])).0)
    ensures r.misses == g.misses + (if g.finale then 0 else MissCount(UpdateNotes(g.notes)))
    ensures r.misses > g.misses ==> r.combo == 0
    ensures r.misses == g.misses ==> r.combo == g.combo
    // a note in play that does not fall past the miss line stays in play
    ensures forall i :: 0 <= i < |g.notes| && g.notes[i].active && g.notes[i].y + NoteSpeed <= HitZoneY + OkWindow + 20.0 ==>
      r.notes[i].active
  {
    FallKeepsInPlay(g.notes);
    var g5 := g.(notes := UpdateNotes(g.notes));
    if !g5.finale then CheckMissed(g5) else g5
  }

  /** A note in play that does not fall past the miss line is neither
      moved out of play nor missed. */
  lemma FallKeepsInPlay(notes: seq<Note>)
    ensures forall i :: 0 <= i < |notes| && notes[i].active && notes[i].y + NoteSpeed <= HitZoneY + OkWindow + 20.0 ==>
      UpdateNote(notes[i]).active && MissNote(UpdateNote(notes[i])).0.active
  {
  }

  /** The number of misses grows by one for a missed note appended at the end. */
  lemma {:induction false} MissCountAppend(notes: seq<Note>, n: Note)
    ensures MissCount(notes + [n]) == MissCount(notes) + (if IsMiss(n) then 1 else 0)
  {
    if |notes| > 0 {
      assert (notes + [n])[1..] == notes[1..] + [n];
      MissCountAppend(notes[1..], n);
    }
  }

  /** A note spawned this frame cannot be missed in the same frame. */
  lemma SpawnAddsNoMiss(notes: seq<Note>, choice: SpawnChoice, fever: bool)
    ensures var n := NewNote(choice.lane, choice.long, fever);
      MissCount(UpdateNotes(notes + [n])) == MissCount(UpdateNotes(notes))
  {
    var n := NewNote(choice.lane, choice.long, fever);
    assert UpdateNotes(notes + [n]) == UpdateNotes(notes) + [UpdateNote(n)];
    MissCountAppend(UpdateNotes(notes), UpdateNote(n));
  }

  /** An update that gets past the timers: the game is on and this frame
      does not end the finale. */
  predicate RunsPhases(g: Game)
  {
    g.started && !g.over && !(g.finale && g.finaleTimer <= 1)
  }

  /** In such an update every note falls 7.5 pixels and, outside the
      finale, is then checked for a miss; a spawned note joins at the end
      of the list, having fallen once. */
  lemma UpdateMovesNotes(g: Game, choice: SpawnChoice)
    requires Valid(g) && RunsPhases(g)
    ensures var r := Update(g, choice);
      && (forall i :: 0 <= i < |g.notes| ==>
            && r.notes[i].y == g.notes[i].y + NoteSpeed
            && r.notes[i] == (if g.finale then UpdateNote(g.notes[i]) else MissNote(UpdateNote(g.notes[i])).0))
      && (r.spawned == g.spawned + 1 ==>
            r.notes[|g.notes|] == UpdateNote(NewNote(choice.lane, choice.long, r.fever)))
  {
    var g2 := Tick(g);
    PhasesMoveNotes(g2, choice);
    assert Update(g, choice) == Phases(g2, choice);
  }

  /** `UpdateMovesNotes` for the phases after the timers. */
  lemma PhasesMoveNotes(g: Game, choice: SpawnChoice)
    requires Valid(g)
    ensures var r := Phases(g, choice);
      && (forall i :: 0 <= i < |g.notes| ==>
            && r.notes[i].y == g.notes[i].y + NoteSpeed
            && r.notes[i] == (if g.finale then UpdateNote(g.notes[i]) else MissNote(UpdateNote(g.notes[i])).0))
      && (r.spawned == g.spawned + 1 ==>
            r.notes[|g.notes|] == UpdateNote(NewNote(choice.lane, choice.long, r.fever)))
  {
    var g4 := FeverAndSpawn(g, choice);
    var g6 := FallAndMiss(g4);
    var r := FinaleStart(g6);
    assert Phases(g, choice) == r;
    if g4.spawned == g.spawned + 1 {
      assert g4.notes[|g.notes|].active && g4.notes[|g.notes|].y == 0.0;
      assert r == g6;
    }
  }

  /** A note spawns on every 30th frame, every 15th in fever mode, until
      `max_notes` notes were spawned, and never in the finale. */
  lemma UpdateSpawns(g: Game, choice: SpawnChoice)
    requires Valid(g) && RunsPhases(g)
    ensures var r := Update(g, choice);
      && (r.spawned == g.spawned || r.spawned == g.spawned + 1)
      && (r.spawned == g.spawned + 1 <==>
            && (g.frameCount + 1) % (if r.fever then FeverSpawnInterval else SpawnInterval) == 0
            && g.spawned < g.maxNotes && !g.finale)
  {
    var g2 := Tick(g);
    PhasesSpawn(g2, choice);
    assert Update(g, choice) == Phases(g2, choice);
  }

  /** `UpdateSpawns` for the phases after the timers. */
  lemma PhasesSpawn(g: Game, choice: SpawnChoice)
    requires Valid(g)
    ensures var r := Phases(g, choice);
      && (r.spawned == g.spawned || r.spawned == g.spawned + 1)
      && (r.spawned == g.spawned + 1 <==>
            && g.frameCount % (if r.fever then FeverSpawnInterval else SpawnInterval) == 0
            && g.spawned < g.maxNotes && !g.finale)
  {
    var g4 := FeverAndSpawn(g, choice);
    var g6 := FallAndMiss(g4);
    var r := FinaleStart(g6);
    assert Phases(g, choice) == r;
    if g4.spawned == g.spawned + 1 {
      // the new note is still in play, so the finale cannot start
      assert g4.notes[|g.notes|].active && g4.notes[|g.notes|].y == 0.0;
      assert r == g6;
    } else if r.fever != g4.fever {
      // only a finale starting now turns fever off, and it needs every note spawned
      assert !g.finale && r.finale && g6.spawned >= g6.maxNotes;
    }
  }

  /** Each fallen note that is missed counts once, none count in the
      finale, and a miss breaks the combo. */
  lemma UpdateCountsMisses(g: Game, choice: SpawnChoice)
    requires Valid(g) && RunsPhases(g)
    ensures var r := Update(g, choice);
      && r.misses == g.misses + (if g.finale then 0 else MissCount(UpdateNotes(g.notes)))
      && (r.misses > g.misses ==> r.combo == 0)
      && (r.misses == g.misses ==> r.combo == g.combo)
  {
    var g4 := FeverAndSpawn(Tick(g), choice);
    SpawnAddsNoMiss(g.notes, choice, g4.fever);
    assert Update(g, choice) == FinaleStart(FallAndMiss(g4));
  }

  /** Fever mode starts on its trigger frame outside the finale, counts
      down one per frame and, when it runs out, schedules the next trigger
      400 frames on; only a finale that starts turns it off early. */
  lemma UpdateRunsFever(g: Game, choice: SpawnChoice)
    requires Valid(g) && g.started && !g.over
    ensures var r := Update(g, choice);
      && (!g.fever && !g.finale && g.frameCount + 1 >= g.nextFeverAt ==>
            r.feverTimer == FeverModeDuration - 1 && (r.fever <==> !r.finale))
      && (g.fever && g.feverTimer > 1 ==>
            r.feverTimer == g.feverTimer - 1 && (r.fever <==> !r.finale))
      && (g.fever && g.feverTimer <= 1 ==>
            !r.fever && r.nextFeverAt == g.frameCount + 1 + FeverModeTriggerInterval)
      && (!g.fever && (g.finale || g.frameCount + 1 < g.nextFeverAt) ==>
            !r.fever && r.feverTimer == g.feverTimer && r.nextFeverAt == g.nextFeverAt)
  {
    if RunsPhases(g) {
      var g4 := FeverAndSpawn(Tick(g), choice);
      assert Update(g, choice) == FinaleStart(FallAndMiss(g4));
    }
  }

  /** A sequence of updates. */
  function UpdateN(g: Game, choices: seq<SpawnChoice>): (r: Game)
    requires Valid(g)
    ensures Valid(r)
    decreases |choices|
  {
    if |choices| == 0 then g else UpdateN(Update(g, choices[0]), choices[1..])
  }

  /** Updates never change the score. */
  lemma {:induction false} UpdatesKeepScore(g: Game, choices: seq<SpawnChoice>)
    requires Valid(g)
    ensures UpdateN(g, choices).score == g.score
    decreases |choices|
  {
    if |choices| > 0 {
      UpdatesKeepScore(Update(g, choices[0]), choices[1..]);
    }
  }

  /** While the finale runs, each update takes one frame off its timer and
      the game is still on until the timer reaches zero. */
  lemma {:induction false} FinaleCountdown(g: Game, choices: seq<SpawnChoice>)
    requires Valid(g) && g.started && !g.over && g.finale
    requires |choices| < g.finaleTimer
    ensures var r := UpdateN(g, choices);
      r.started && !r.over && r.finale && r.finaleTimer == g.finaleTimer - |choices|
    decreases |choices|
  {
    if |choices| > 0 {
      FinaleCountdown(Update(g, choices[0]), choices[1..]);
    }
  }

  /** The finale lasts exactly 300 updates: starting it, the game is still
      on after 299 updates and over after the 300th. */
  lemma FinaleEndsGame(g: Game, choices: seq<SpawnChoice>, last: SpawnChoice)
    requires Valid(g) && g.started && !g.over && g.finale && g.finaleTimer == FinaleModeDuration
    requires |choices| == FinaleModeDuration - 1
    ensures !UpdateN(g, choices).over
    ensures UpdateN(g, choices + [last]).over
  {
    FinaleCountdown(g, choices);
    UpdateNSplit(g, choices, last);
  }

  lemma {:induction false} UpdateNSplit(g: Game, choices: seq<SpawnChoice>, last: SpawnChoice)
    requires Valid(g)
    ensures UpdateN(g, choices + [last]) == Update(UpdateN(g, choices), last)
    decreases |choices|
  {
    if |choices| == 0 {
      assert choices + [last] == [last];
    } else {
      assert (choices + [last])[1..] == choices[1..] + [last];
      UpdateNSplit(Update(g, choices[0]), choices[1..], last);
    }
  }
}
