# KIRKIFY gesture pipeline, modelled in Dafny

KIRKIFY is a set of webcam games played with hand gestures. Each game
follows the same two steps on every camera frame:

1. A hand detector reports the hands it sees. Each hand has a centre, a
   confidence and an optional `Left`/`Right` handedness label.
2. A controller turns that list into at most one discrete input per frame,
   which a deterministic game reducer consumes.

This project models that pipeline as immutable records and pure step
functions, and proves its promises about them.

The pipeline parts:

- **Hand filter** (`filter_hands`, in the Flappy Bird and rhythm
  controllers and in the legacy rhythm script). It keeps at most one Left
  and one Right hand. When a label is duplicated, it keeps the two most
  confident valid hands and relabels them by x position.
- **Jump / hit tracker** (`process_hand_gesture`). It keeps one
  `(y, frames_still)` entry per hand, a cooldown and, for Flappy Bird, the
  last jumping hand. A tracked, non-stale hand that rises more than 32
  pixels fires.
  - One model, parameterised by a `Config`, covers three copies: the
    Flappy controller (hands must alternate, cooldown 0), the rhythm
    controller (cooldown 3) and the legacy rhythm script (cooldown 10).
  - The legacy Flappy script `main.py` has no cooldown and no stillness
    logic, so its tracker is modelled on its own (`LegacyTracker`).
- **Counting edge detector** (`detect_alternating_gesture`, two identical
  copies). It tracks per-hand direction, last y, peak and valley, and
  emits `left_up`, `left_down`, `right_up` and `right_down`.
- **Game reducers**:
  - the counting game's up→down cycle state machine;
  - the rhythm game's hit windows, long notes, misses, fever mode and
    finale;
  - Flappy Bird's jump, pipe geometry, pass scoring and pipe removal. One
    `Config` covers both copies, which differ only in jump strength and
    gravity.

Modules, one per file:

- `Base`: hands, sides, labels and alternation.
- `HandFilter`
- `MotionTracker`
- `LegacyTracker`
- `Pipeline`: filter, then tracker, for one frame.
- `CountingTracker`
- `CountingGame`
- `RhythmNotes`
- `RhythmGame`
- `FlappyGame`

## Model

| member | source | states |
|---|---|---|
| HandFilter.FilterHands | games/flappy_bird/controller.py:85-147 | The result has at most two hands, each labelled Left or Right, and no two share a label. Empty input comes back unchanged. Without a duplicated label the result is exactly the valid hands in input order. With one, it is the two most confident valid hands (stable: the earlier wins ties), relabelled Left/Right by ascending x. |
| HandFilter.OverflowBranchUnreachable | games/flappy_bird/controller.py:109-147 | Two or more valid hands that are not exactly one Left and one Right always contain a duplicated label. So the final fallback branch can never run. |
| HandFilter.FilterFewValid | games/flappy_bird/controller.py:96-107 | A non-empty input without a Left/Right hand filters to the empty list. A single valid hand is returned as it is. |
| MotionTracker.Step | games/flappy_bird/controller.py:149-276 | The cooldown is decremented first. An empty frame clears all tracking and fires nothing. A gesture needs: an expired cooldown, a hand among this frame's labels, a cooldown reset to the configured frames and that hand re-baselined with 0 still frames. With alternation, it also needs a hand other than the last jumper, which then becomes the last jumper. Without a gesture the last hand is kept. Tracked keys are a subset of the labels seen. |
| MotionTracker.GestureCharacterised | games/flappy_bird/controller.py:173-238 | With at most one hand per side, a call fires exactly the first hand that is tracked, not stale, rose more than the threshold and (with alternation) is not the last jumper. Hands before it are re-baselined or followed by the stillness rule. The firing hand is reset to its new y. Hands after it keep their old entry. |
| MotionTracker.AlternatingJumps | games/flappy_bird/controller.py:203-212 | In any run of frames with alternation on, each jump comes from the other hand than the previous jump. |
| MotionTracker.QuietWhileCoolingDown | games/flappy_bird/controller.py:239-268 | While the cooldown outlasts the frames, no call fires, whatever the hands. |
| MotionTracker.QuietAfterGesture | games/rhythm/controller.py:122-162 | After a gesture, the next `jump_cooldown_frames - 1` calls return nothing: 2 for the rhythm controller, 9 for the legacy rhythm script. |
| MotionTracker.FlappyCooldownNeverBlocks | games/flappy_bird/controller.py:70-71 | With Flappy's shipped constants (initial cooldown 1, cooldown frames 0), the cooldown is 0 after every call, so it never blocks a jump. |
| MotionTracker.RhythmStillMeansUnmoved | games/rhythm/controller.py:67-68 | With a still threshold of 1 pixel and integer y, `frames_still` counts consecutive frames with exactly the same y. |
| Pipeline.Frame | games/flappy_bird/controller.py:338-371 | On a filtered frame, the firing hand is always one the filter kept. A frame without any valid hand clears all tracking. |
| Pipeline.FrameCharacterised | rhythm_main.py:226-244 | The filter leaves at most one hand per side. So the tracker's first-qualifying-hand characterisation holds for every frame the controllers process. |
| LegacyTracker.Step | main.py:60-105 | An empty frame clears the map and returns False. Labelled keys not seen this call are dropped. The shared `'hand'` key is never dropped. It is present only if it was before or an unlabelled hand brought it. Without an unlabelled hand it keeps its stored y. |
| LegacyTracker.LegacyJumpCharacterised | main.py:56-105 | A call with hands returns True exactly when some hand rose more than 30 pixels above the y its key held when that hand was reached. A first sighting never fires, and there is no early exit. Afterwards each key holds the y of the last hand with that key. The whole map is pinned: `'hand'` and this call's labelled sides hold the y the reference assigns (the old y when untouched), and every other key is gone. |
| CountingTracker.Move | games/counting/controller.py:121-148 | A first sighting only records y. `up` is emitted exactly when the hand rose more than 30 pixels and was not already going up. `down` is emitted exactly when it fell more than 30 pixels while going up. An `up` stores the old y as the valley. The peak never moves down the screen. Outside an `up`, the valley never moves up the screen. A rise without an `up` leaves the valley alone. A move within 30 pixels changes only the last y. |
| CountingTracker.Assign | games/counting/controller.py:100-116 | The last Left-labelled hand is the left hand and the last Right-labelled one the right hand. Only when no hand carries either label are hands split at half the frame width, later ones overwriting earlier ones. |
| CountingTracker.Detect | counting_game_controller.py:70-171 | Without a detector nothing changes. With no hands only the last y of each hand is cleared. Otherwise each side's new motion and event are exactly `Move` applied to the hand assigned to that side. The returned gesture is the first event, and when both hands emit it is the left one, though both sides advance. An event needs a move of more than 30 pixels. |
| CountingTracker.EventsAlternate | games/counting/controller.py:151-178 | Across any run of frames, each hand's events alternate up, down, up, and so on. The first is up unless the hand was already going up. |
| CountingTracker.NoRepeatedEvent | counting_game_controller.py:111-168 | An alternating event list never repeats a direction back to back, and a fresh hand's first event is up. |
| CountingGame.Reset | games/counting/game.py:96-103 | A fresh round: count 0, both hands idle, no last hand, 30 seconds, not started and not over. The high score is kept. |
| CountingGame.ParseActionName | games/counting/game.py:126-132 | Every event name the detector produces parses back to that event. |
| CountingGame.ParsedIsActionName | games/counting/game.py:126-132 | Only the four event names parse to an event. |
| CountingGame.TwoUnderscoresRaise | games/counting/game.py:129 | An action with two underscores makes the two-name unpacking raise. |
| CountingGame.Apply | games/counting/game.py:137-167 | `up` moves the hand to moving-up. `down` while not moving up is ignored. `down` while moving up returns the hand to idle and counts one exactly when that hand did not complete the previous cycle. The other hand is untouched. The high score follows the count. |
| CountingGame.HandleAction | games/counting/game.py:112-167 | The first action only starts the round. After game over nothing changes. An error happens exactly on a malformed two-underscore action. Unknown names are ignored. Validity (never moving-down, high score ≥ count) is preserved. |
| CountingGame.Update | games/counting/game.py:169-183 | The remaining time is `max(0, 30 - elapsed)`. The round ends exactly when 30 seconds have elapsed. Nothing else changes, so validity is kept. |
| CountingGame.RoundEndIsFinal | games/counting/game.py:169-183 | Once the round is over, later updates leave the game unchanged. A started round is over after any update that reads 30 seconds or more. |
| CountingGame.PlayAlternates | games/counting/game.py:142-164 | Over any sequence of detector events, the count grows by exactly the number of scoring cycles. Each scorer differs from the previous one, and validity is kept. |
| CountingGame.ScorersSwitchHands | games/counting/game.py:146-149 | Two consecutive scoring cycles are always by different hands. |
| RhythmNotes.UpdateNote | games/rhythm/game.py:76-82 | A note moves 7.5 pixels down and never comes back into play. A regular note leaves play below y = 650. A long note leaves once its top passes 650. A long note's hit cooldown counts down, and it is in the hit zone exactly when its span meets 420..580. |
| RhythmNotes.RegisterHit | games/rhythm/game.py:156-168 | When the long note can be hit: 20 points, hit count +1 and cooldown 4. Otherwise nothing changes and no points are earned. A note just hit cannot be hit again straight away. |
| RhythmNotes.Classify | games/rhythm/game.py:339-362 | Within 20 pixels is perfect, within 40 good, within 60 ok, beyond that no hit; each window is stated as an if-and-only-if. |
| RhythmNotes.Distance | games/rhythm/game.py:108-110 | The distance is the absolute difference between the note's y and the hit line. |
| RhythmNotes.WindowsByPosition | games/rhythm/game.py:30-41 | On screen, the windows are bands around the hit line: perfect for y in 480..520, good up to 460..540, ok up to 440..560, and no hit outside. |
| RhythmNotes.UpdateTimesPosition | games/rhythm/game.py:76-82 | After k updates a note is 7.5·k lower. A regular note is in play exactly while it has not passed y = 650. |
| RhythmNotes.RegularNoteSpendsFramesInWindow | games/rhythm/game.py:76-82 | A fresh regular note in any lane is in play and in the ok window after 59 updates. It stays within 60 pixels of the hit line for frames 59 to 74, so every note can be hit. |
| RhythmGame.Reset | games/rhythm/game.py:255-287 | A fresh game: no notes, score, combo and misses 0, neither fever nor finale, 50 notes to spawn. The game invariant holds. |
| RhythmGame.CheckHit | games/rhythm/game.py:301-362 | Long notes take priority: the first hittable one in the lane takes a rapid hit. Otherwise the closest unhit regular note of the lane is judged by its distance, the first one on ties. It scores `points × multiplier` and leaves play. Nothing happens exactly when no long note is hittable and every regular target is more than 60 pixels away. |
| RhythmGame.MissNote | games/rhythm/game.py:366-381 | A regular note in play and unhit below y = 580 is a miss and leaves play. A long note that left play without a hit is a miss, flagged so it counts once. |
| RhythmGame.CheckMissed | games/rhythm/game.py:364-381 | Every missed note is marked as the scan marks it, and misses grow by exactly the number of missed notes. Misses grow exactly when some note is missed, and then the combo breaks. The score is unchanged. Without a miss the game is unchanged. |
| RhythmGame.CheckMissedIdempotent | games/rhythm/game.py:369-372 | Each miss is counted once: a second scan right after the first changes nothing. |
| RhythmGame.HandleGesture | games/rhythm/game.py:389-449 | The first gesture only starts the game, and gestures after game over are dropped. In the finale a gesture scores 50 only when its cooldown has run out, and then sets it to 10. The finale leaves the notes alone. Outside the finale the notes, the score and the perfect, good, ok and long-note hit counters are the `check_hit` result's. A gesture that hits nothing breaks the combo. The last hit hand is recorded. The score never decreases, and the best combo bounds the combo. |
| RhythmGame.FinaleStart | games/rhythm/game.py:502-509 | The finale begins exactly when every note has been spawned and none is in play. It ends fever mode. |
| RhythmGame.SpawnPhase | games/rhythm/game.py:485-488 | A note is spawned every 30th frame (15th in fever mode) while fewer than 50 were spawned. |
| RhythmGame.Update | games/rhythm/game.py:451-509 | Only a running game changes. The score is unchanged. Fever and finale never overlap. Spawns never exceed the maximum. The finale counts down and ends the game at zero. It starts only once every note was spawned and none is in play. |
| RhythmGame.FeverPhase | games/rhythm/game.py:472-483 | Fever mode starts on its trigger frame outside fever and finale, with its first frame already counted. While on, it counts down one per frame. When the timer reaches zero it ends and the next trigger is 400 frames later. Otherwise nothing changes. |
| RhythmGame.UpdateMovesNotes | games/rhythm/game.py:490-496 | In an update that does not end the finale, every note falls 7.5 pixels. Outside the finale it is then checked for a miss. A note spawned in the frame is appended, having fallen once. |
| RhythmGame.UpdateSpawns | games/rhythm/game.py:485-488 | In such an update at most one note spawns. One spawns exactly when the new frame number is a multiple of 30 (15 in fever mode), fewer than `max_notes` were spawned, and the finale is off. |
| RhythmGame.UpdateCountsMisses | games/rhythm/game.py:494-496 | In such an update the misses grow by the number of fallen notes that are missed, and by nothing in the finale. A miss breaks the combo, and without one the combo is kept. |
| RhythmGame.UpdateRunsFever | games/rhythm/game.py:472-483 | In a running update, fever starts when the new frame reaches the trigger outside the finale. It counts down while on. When it runs out it ends and schedules the next trigger 400 frames on. Only a finale starting in the same frame turns it off early. |
| RhythmGame.UpdatesKeepScore | games/rhythm/game.py:451-509 | No sequence of updates changes the score. |
| RhythmGame.FinaleEndsGame | games/rhythm/game.py:462-470 | From the start of the finale, the game is still running after 299 updates and over after the 300th. |
| FlappyGame.Reset | games/flappy_bird/game.py:132-142 | Score 0, no pipes, not started and not over, the bird at mid-screen at rest. The high score is kept. The game invariant holds: high score ≥ score, and every pipe is on screen, gapped in 150..350 and scored once behind the bird. |
| FlappyGame.HandleJump | games/flappy_bird/game.py:170-176 | After game over nothing changes and the jump is refused. Otherwise the game starts, the bird's velocity becomes the jump strength, and the jump is accepted. The game invariant is kept. |
| FlappyGame.GetRects | games/flappy_bird/game.py:107-112 | The top pipe hangs from the ceiling and the bottom one stands on the ground. They leave exactly a 150-pixel opening centred on the gap. For a gap within 150..350, both pipes are at least 75 pixels tall. |
| FlappyGame.StepPipe | games/flappy_bird/game.py:80-81 | A pipe moves 3 pixels left. It scores exactly once, the first time its right edge is left of the bird. It has always scored before leaving the screen. |
| FlappyGame.StepPipes | games/flappy_bird/game.py:190-205 | The kept pipes are exactly the moved pipes still on screen, in their original order. |
| FlappyGame.StepPipesKeepOk | games/flappy_bird/game.py:190-205 | Moving pipes that are in shape leaves the kept ones in shape: on screen, gapped in 150..350, and scored once behind the bird. |
| FlappyGame.Update | games/flappy_bird/game.py:178-224 | Only a running game changes. A pipe is spawned every 90th frame, then all pipes move and off-screen ones are dropped. The score grows by the number of newly passed pipes, and the high score becomes the larger of the two. The game is over exactly on ground or ceiling contact or a pipe hit. The game invariant is kept. |
| FlappyGame.PipeScoresOnce | game.py:175-194 | Over any number of frames a pipe earns at most one point. An unpassed pipe earns it exactly when its right edge ends up left of the bird. |
| FlappyGame.NewPipeScoresAt121 | games/flappy_bird/game.py:186-201 | A freshly spawned pipe scores on its 121st frame and not before. |

## Left out

- Hand detectors (MediaPipe, OpenCV DNN): their output is the input list of
  `Hand`s, with handedness `Labelled`, `Unknown` or absent (`Missing`).
- Controller `run` loops and `toggle_fullscreen`:
  - camera capture, mirroring and frame skipping are not modelled;
  - pygame events and drawing are not modelled;
  - the model is one step function call per processed frame.
- Audio, UI, feedback text and timers, and all `draw*` methods: these are
  presentation only.
- High-score load and save: this is file I/O. The high score is a field.
- Randomness: the pipe `gap_y` and the rhythm lane and long-note choice
  (`SpawnChoice`) are inputs.
- Flappy pipe collision (`colliderect`) is the boolean input `hitsPipe`.
  Bird `y` and velocity are exact reals.
- Floating point: rhythm note positions and bird physics are exact reals.
  Steps of 7.5 are exact in binary floating point too.
- The counting game's wall clock: `update` takes the seconds elapsed as an
  input. `start_game` records no start time.
- In-place relabelling: `filter_hands` relabels the caller's dicts in place
  on duplicates. That only feeds the UI "hands corrected" flag, so the model
  returns fresh records.
- Constructor wiring: the Flappy controller passes an argument that the
  game constructor does not accept. The game state is modelled directly.
- Bird rotation and sprites: presentation only.
- CountingGame.Update: the round end is stated for an `elapsed` reading. The
  model does not say that successive readings increase, because the clock
  is outside the model.
- MotionTracker.GestureCharacterised: it is stated for frames with at most
  one hand per side. This is what `filter_hands` guarantees
  (`Pipeline.FrameCharacterised`). `MotionTracker.Step` itself handles any
  list.
- LegacyTracker.Step: the legacy script's y is an integer pixel. There is no
  cooldown or stillness state to model.
- `get_score` (`CountingGame.Score`) only returns the count.
