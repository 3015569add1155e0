/**
 The falling notes of the rhythm game (`Note`, `LongNote`): a note moves 7.5
 pixels down per frame and leaves play below the screen; a long note can be
 hit repeatedly while it overlaps the widened hit zone, at most once every
 four frames; a regular note's hit quality is decided by its distance from
 the hit line y = 500.
 */
module RhythmNotes {
  import opened Base

  const NoteSpeed: real := 7.5
  const HitZoneY: real := 500.0
  const ScreenHeight: real := 600.0
  const PerfectWindow: real := 20.0
  const GoodWindow: real := 40.0
  const OkWindow: real := 60.0
  /** Half of `LONG_NOTE_HEIGHT` (200), as `height // 2`. */
  const LongHalfHeight: real := 100.0
  const LongNoteHitCooldown := 4
  const LongNotePointsPerHit := 20

  /** A long note's own counters: `hit_count`, `hit_cooldown`,
      `in_hit_zone`, `total_points`. */
  datatype Kind = Regular | Long(hitCount: nat, hitCooldown: nat, inHitZone: bool, totalPoints: nat)

  datatype Note = Note(lane: Side, y: real, active: bool, hit: bool, isFever: bool, kind: Kind)

  /** A freshly spawned note at the top of the screen. */
  function NewNote(lane: Side, long: bool, isFever: bool): (n: Note)
    ensures n.lane == lane && n.y == 0.0 && n.active && !n.hit && n.isFever == isFever
    ensures n.kind.Long? <==> long
    ensures long ==> n.kind == Long(0, 0, false, 0)
  {
    Note(lane, 0.0, true, false, isFever, if long then Long(0, 0, false, 0) else Regular)
  }

  /** The widened zone a long note must overlap to be hit: its span
      `[y - 100, y + 100]` meets `[420, 580]`. */
  predicate OverlapsHitZone(y: real)
  {
    !(y + LongHalfHeight < HitZoneY - OkWindow - 20.0 || y - LongHalfHeight > HitZoneY + OkWindow + 20.0)
  }

  /** `Note.update` and `LongNote.update`. */
  function UpdateNote(n: Note): (r: Note)
    ensures r.y == n.y + 7.5
    ensures r.lane == n.lane && r.hit == n.hit && r.isFever == n.isFever
    ensures r.kind.Long? == n.kind.Long?
    // a note never comes back into play; it leaves once below the screen
    ensures r.active ==> n.active
    ensures n.kind.Regular? ==> (r.active <==> n.active && r.y <= 650.0)
    ensures n.kind.Long? ==> (r.active <==> n.active && r.y <= 750.0)
    ensures n.kind.Long? ==> && r.kind.hitCount == n.kind.hitCount
                             && r.kind.totalPoints == n.kind.totalPoints
                             && r.kind.hitCooldown == (if n.kind.hitCooldown > 0 then n.kind.hitCooldown - 1 else 0)
                             && (r.kind.inHitZone <==> 320.0 <= r.y <= 680.0)
  {
    var y := n.y + NoteSpeed;
    match n.kind
    case Regular =>
      n.(y := y, active := n.active && !(y > ScreenHeight + 50.0))
    case Long(count, cooldown, _, points) =>
      var cooldown' := if cooldown > 0 then cooldown - 1 else cooldown;
      n.(y := y,
         kind := Long(count, cooldown', OverlapsHitZone(y), points),
         active := n.active && !(y - LongHalfHeight > ScreenHeight + 50.0))
  }

  /** `get_distance_from_hit_zone`. */
  function Distance(n: Note): (d: real)
    ensures d >= 0.0
    ensures d == HitZoneY - n.y || d == n.y - HitZoneY
  {
    if n.y >= HitZoneY then n.y - HitZoneY else HitZoneY - n.y
  }

  /** `LongNote.can_hit`. */
  predicate CanHit(n: Note)
  {
    n.kind.Long? && n.kind.inHitZone && n.kind.hitCooldown <= 0 && n.active
  }

  /** `LongNote.register_hit`: the note and the points earned. */
  function RegisterHit(n: Note): (r: (Note, nat))
    requires n.kind.Long?
    ensures r.0.kind.Long?
    ensures CanHit(n) ==> r.1 == LongNotePointsPerHit && r.0.kind.hitCooldown == LongNoteHitCooldown
    ensures CanHit(n) ==> r.0.kind.hitCount == n.kind.hitCount + 1
    ensures CanHit(n) ==> r.0.kind.totalPoints == n.kind.totalPoints + r.1
    ensures CanHit(n) ==> r.0.(kind := n.kind) == n && r.0.kind.inHitZone == n.kind.inHitZone
    ensures !CanHit(n) ==> r == (n, 0)
    // a hit note cannot be hit again before its cooldown runs out
    ensures !CanHit(r.0)
  {
    if CanHit(n) then
      var k := n.kind;
      (n.(kind := k.(hitCount := k.hitCount + 1, hitCooldown := LongNoteHitCooldown,
                     totalPoints := k.totalPoints + LongNotePointsPerHit)),
       LongNotePointsPerHit)
    else (n, 0)
  }

  /** A hit quality. */
  datatype Quality = Perfect | Good | Fine

  function BasePoints(q: Quality): nat
  {
    match q
    case Perfect => 100
    case Good => 50
    case Fine => 25
  }

  /** The timing windows: within 20 pixels perfect, within 40 good, within
      60 ok, beyond that no hit. */
  function Classify(d: real): (q: Option<Quality>)
    requires d >= 0.0
    ensures q.None? <==> d > OkWindow
    ensures q == Some(Perfect) <==> d <= PerfectWindow
    ensures q == Some(Good) <==> PerfectWindow < d <= GoodWindow
    ensures q == Some(Fine) <==> GoodWindow < d <= OkWindow
  {
    if d <= PerfectWindow then Some(Perfect)
    else if d <= GoodWindow then Some(Good)
    else if d <= OkWindow then Some(Fine)
    else None
  }

  /** The windows as bands of the screen: perfect within 480..520, good
      within 460..540, ok within 440..560, and no hit outside. */
  lemma WindowsByPosition(n: Note)
    ensures Classify(Distance(n)) == Some(Perfect) <==> 480.0 <= n.y <= 520.0
    ensures Classify(Distance(n)) == Some(Good) <==> (460.0 <= n.y < 480.0 || 520.0 < n.y <= 540.0)
    ensures Classify(Distance(n)) == Some(Fine) <==> (440.0 <= n.y < 460.0 || 540.0 < n.y <= 560.0)
    ensures Classify(Distance(n)).None? <==> (n.y < 440.0 || n.y > 560.0)
  {
  }

  /** The y positions a note passes: spawned at 0 it is at `7.5 * k` after
      `k` updates. */
  function UpdateTimes(n: Note, k: nat): (r: Note)
    decreases k
  {
    if k == 0 then n else UpdateTimes(UpdateNote(n), k - 1)
  }

  /** A note `k` frames old sits at `y + 7.5 k`, and a regular one is in play
      exactly while it has not passed y = 650. */
  lemma {:induction false} UpdateTimesPosition(n: Note, k: nat)
    ensures UpdateTimes(n, k).y == n.y + 7.5 * k as real
    ensures UpdateTimes(n, k).kind.Long? == n.kind.Long?
    ensures !n.active ==> !UpdateTimes(n, k).active
    ensures n.kind.Regular? && n.y <= 650.0 ==>
      (UpdateTimes(n, k).active <==> n.active && n.y + 7.5 * k as real <= 650.0)
    decreases k
  {
    if k > 0 {
      UpdateTimesPosition(UpdateNote(n), k - 1);
    }
  }

  /** A regular note reaches the ok window and stays there for at least
      sixteen frames (the window is 120 pixels wide and it moves 7.5 per
      frame), so the hit window can always be met. */
  lemma RegularNoteSpendsFramesInWindow(lane: Side, isFever: bool)
    ensures var n := UpdateTimes(NewNote(lane, false, isFever), 59);
      n.active && Classify(Distance(n)) == Some(Fine)
    ensures forall k :: 59 <= k <= 74 ==> Distance(UpdateTimes(NewNote(lane, false, isFever), k)) <= OkWindow
  {
    var n0 := NewNote(lane, false, isFever);
    UpdateTimesPosition(n0, 59);
    forall k | 59 <= k <= 74 ensures Distance(UpdateTimes(n0, k)) <= OkWindow {
      UpdateTimesPosition(n0, k);
    }
  }
}
