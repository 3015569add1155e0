/**
 The counting game (`CountingGame`): each hand runs a small state machine
 that goes `idle -> moving_up` on an `up` event and back to `idle` on the
 following `down` event; such a completed cycle scores one point when the
 completing hand is not the hand that completed the previous cycle.
 */
module CountingGame {
  import opened Base
  import opened CountingTracker

  /** `hand_states` values; `MovingDown` is declared but never entered. */
  datatype HandState = Idle | MovingUp | MovingDown

  const RoundSeconds: real := 30.0

  datatype Game = Game(
    started: bool,
    over: bool,
    count: nat,
    highScore: nat,
    lastCompleted: Option<Side>,
    left: HandState,
    right: HandState,
    timeRemaining: real)

  function StateOf(g: Game, s: Side): HandState
  {
    if s == Left then g.left else g.right
  }

  function WithState(g: Game, s: Side, h: HandState): (r: Game)
    ensures StateOf(r, s) == h && StateOf(r, Other(s)) == StateOf(g, Other(s))
    ensures r.started == g.started && r.over == g.over && r.timeRemaining == g.timeRemaining
    ensures r.count == g.count && r.highScore == g.highScore && r.lastCompleted == g.lastCompleted
  {
    if s == Left then g.(left := h) else g.(right := h)
  }

  /** What every reachable game satisfies: no hand is ever `moving_down` and
      the high score is at least the count. */
  predicate Valid(g: Game)
  {
    g.left != MovingDown && g.right != MovingDown && g.highScore >= g.count
  }

  /** `reset`: a fresh round that keeps the high score. */
  function Reset(g: Game): (r: Game)
    ensures Valid(r)
    ensures !r.started && !r.over && r.count == 0 && r.lastCompleted == None
    ensures r.left == Idle && r.right == Idle
    ensures r.highScore == g.highScore && r.timeRemaining == RoundSeconds
  {
    Game(false, false, 0, g.highScore, None, Idle, Idle, RoundSeconds)
  }

  /** `start_game` (the start time is wall-clock and not modelled). */
  function StartGame(g: Game): (r: Game)
    ensures r.started && r == g.(started := true)
  {
    g.(started := true)
  }

  /** `get_score`. */
  function Score(g: Game): nat
  {
    g.count
  }

  // ---------------------------------------------------------------------
  // Action names.
  // ---------------------------------------------------------------------

  function SideName(s: Side): string
  {
    if s == Left then "left" else "right"
  }

  function DirName(d: Dir): string
  {
    if d == Up then "up" else "down"
  }

  /** The detector's event string, such as `"left_up"`. */
  function ActionName(g: Gesture): (r: string)
    ensures '_' in r
  {
    SideName(g.side) + "_" + DirName(g.dir)
  }

  /** The position of the first `'_'` in `s`. */
  function FirstUnderscore(s: string): (r: Option<nat>)
    ensures r.None? <==> '_' !in s
    ensures r.Some? ==> r.value < |s| && s[r.value] == '_' && '_' !in s[..r.value]
  {
    if |s| == 0 then None
    else if s[0] == '_' then Some(0)
    else
      var r := FirstUnderscore(s[1..]);
      if r.Some? then
        assert s[..r.value + 1] == [s[0]] + s[1..][..r.value];
        Some(r.value + 1)
      else None
  }

  /** The parse at the head of `handle_action`: no `'_'` gives `Ok(None)`
      (ignored); a second `'_'` makes the two-name unpacking raise, an `Err`;
      otherwise the two names are checked against the known hands and
      directions. */
  function ParseAction(action: string): (r: Result<Option<Gesture>>)
  {
    match FirstUnderscore(action)
    case None => Ok(None)
    case Some(i) =>
      var hand := action[..i];
      var dir := action[i + 1..];
      if '_' in dir then Err("too many values to unpack (expected 2)")
      else
        var side := if hand == "left" then Some(Left) else if hand == "right" then Some(Right) else None;
        var d := if dir == "up" then Some(Up) else if dir == "down" then Some(Down) else None;
        if side.Some? && d.Some? then Ok(Some(Gesture(side.value, d.value))) else Ok(None)
  }

  /** Every event the detector produces parses back to itself. */
  lemma ParseActionName(g: Gesture)
    ensures ParseAction(ActionName(g)) == Ok(Some(g))
  {
    var a := ActionName(g);
    var i := |SideName(g.side)|;
    assert a[i] == '_';
    assert '_' !in a[..i] by {
      assert a[..i] == SideName(g.side);
    }
    assert a[..i] == SideName(g.side);
    assert a[i + 1..] == DirName(g.dir);
  }

  /** Only an event name parses to an event. */
  lemma ParsedIsActionName(action: string, g: Gesture)
    requires ParseAction(action) == Ok(Some(g))
    ensures action == ActionName(g)
  {
    var i := FirstUnderscore(action).value;
    assert action == action[..i] + "_" + action[i + 1..];
  }

  /** A string with two underscores is rejected by the unpacking. */
  lemma TwoUnderscoresRaise(action: string, i: nat, j: nat)
    requires i < j < |action| && action[i] == '_' && action[j] == '_'
    ensures ParseAction(action).Err?
  {
    var k := FirstUnderscore(action).value;
    assert action[k + 1..][j - k - 1] == '_';
  }

  // ---------------------------------------------------------------------
  // `handle_action`.
  // ---------------------------------------------------------------------

  /** The cycle state machine for one parsed event. */
  function Apply(g: Game, e: Gesture): (r: Game)
    // only the acting hand's state, the count, the last hand and the high score change
    ensures StateOf(r, Other(e.side)) == StateOf(g, Other(e.side))
    ensures r.started == g.started && r.over == g.over && r.timeRemaining == g.timeRemaining
    ensures e.dir == Up ==>
      r == (if StateOf(g, e.side) == MovingUp then g else WithState(g, e.side, MovingUp))
    ensures e.dir == Down && StateOf(g, e.side) != MovingUp ==> r == g
    ensures e.dir == Down && StateOf(g, e.side) == MovingUp ==> StateOf(r, e.side) == Idle
    ensures r.count == g.count + 1 <==>
      e.dir == Down && StateOf(g, e.side) == MovingUp && g.lastCompleted != Some(e.side)
    ensures r.count == g.count || r.count == g.count + 1
    ensures r.count == g.count + 1 ==> r.lastCompleted == Some(e.side)
    ensures r.count == g.count ==> r.lastCompleted == g.lastCompleted
    ensures r.highScore == if r.count > g.count && r.count > g.highScore then r.count else g.highScore
    ensures Valid(g) ==> Valid(r)
  {
    var current := StateOf(g, e.side);
    if e.dir == Up then
      if current == Idle || current == MovingDown then WithState(g, e.side, MovingUp) else g
    else if current == MovingUp then
      if g.lastCompleted != Some(e.side) then
        var counted := g.(count := g.count + 1, lastCompleted := Some(e.side));
        var best := if counted.count > counted.highScore then counted.(highScore := counted.count) else counted;
        assert best.count == g.count + 1;
        assert e.dir == Down;
        WithState(best, e.side, Idle)
      else WithState(g, e.side, Idle)
    else g
  }

  /** `handle_action`: the first action of a round only starts it, actions
      after game over are dropped, and malformed names are ignored or (with
      a second underscore) raise. */
  function HandleAction(g: Game, action: string): (r: Result<Game>)
    ensures !g.started ==> r == Ok(g.(started := true))
    ensures g.started && g.over ==> r == Ok(g)
    ensures r.Err? <==> g.started && !g.over && ParseAction(action).Err?
    ensures Valid(g) && r.Ok? ==> Valid(r.value)
    ensures g.started && !g.over && ParseAction(action) == Ok(None) ==> r == Ok(g)
    ensures g.started && !g.over && ParseAction(action).Ok? && ParseAction(action).value.Some? ==>
      r == Ok(Apply(g, ParseAction(action).value.value))
  {
    if !g.started then Ok(StartGame(g))
    else if g.over then Ok(g)
    else
      match ParseAction(action)
      case Err(msg) => Err(msg)
      case Ok(None) => Ok(g)
      case Ok(Some(e)) => Ok(Apply(g, e))
  }

  /** `update` with the seconds elapsed since the round started (a
      wall-clock reading in the source): the remaining time is
      `max(0, 30 - elapsed)` and the round ends when it reaches 0. */
  function Update(g: Game, elapsed: real): (r: Game)
    ensures !g.started || g.over ==> r == g
    ensures g.started && !g.over ==> 0.0 <= r.timeRemaining <= RoundSeconds || elapsed < 0.0
    ensures g.started && !g.over ==> (r.over <==> elapsed >= RoundSeconds)
    // the remaining time is the larger of 0 and 30 - elapsed
    ensures g.started && !g.over ==>
      && r.timeRemaining >= 0.0 && r.timeRemaining >= RoundSeconds - elapsed
      && (r.timeRemaining == 0.0 || r.timeRemaining == RoundSeconds - elapsed)
    ensures r.(timeRemaining := g.timeRemaining, over := g.over) == g
    ensures Valid(g) ==> Valid(r)
  {
    if !g.started || g.over then g
    else
      var remaining := if RoundSeconds - elapsed > 0.0 then RoundSeconds - elapsed else 0.0;
      g.(timeRemaining := remaining, over := remaining <= 0.0)
  }

  /** One `update` per frame, with the elapsed time read on each. */
  function UpdateAll(g: Game, elapsed: seq<real>): (r: Game)
    decreases |elapsed|
  {
    if |elapsed| == 0 then g else UpdateAll(Update(g, elapsed[0]), elapsed[1..])
  }

  /** Once a round is over, later updates leave the game alone; a running
      round is over after any update that reads 30 seconds or more. */
  lemma {:induction false} RoundEndIsFinal(g: Game, elapsed: seq<real>)
    ensures g.over ==> UpdateAll(g, elapsed) == g
    ensures g.started && (exists i :: 0 <= i < |elapsed| && elapsed[i] >= RoundSeconds) ==>
      UpdateAll(g, elapsed).over
    decreases |elapsed|
  {
    if |elapsed| > 0 {
      var next := Update(g, elapsed[0]);
      RoundEndIsFinal(next, elapsed[1..]);
      if g.started && elapsed[0] < RoundSeconds && (exists i :: 0 <= i < |elapsed| && elapsed[i] >= RoundSeconds) {
        var i :| 0 <= i < |elapsed| && elapsed[i] >= RoundSeconds;
        assert elapsed[1..][i - 1] >= RoundSeconds;
      }
    }
  }

  // ---------------------------------------------------------------------
  // Invariants and runs.
  // ---------------------------------------------------------------------

  /** A sequence of detector events fed to `handle_action`; the final game
      and the hands whose cycles scored, in order. */
  datatype Run = Run(game: Game, scorers: seq<Side>)

  /** `handle_action` on a detector event: it never raises. */
  function Feed(g: Game, e: Gesture): (r: Game)
    ensures HandleAction(g, ActionName(e)) == Ok(r)
    ensures r == if !g.started then StartGame(g) else if g.over then g else Apply(g, e)
  {
    ParseActionName(e);
    HandleAction(g, ActionName(e)).value
  }

  function Play(g: Game, events: seq<Gesture>): (r: Run)
    decreases |events|
  {
    if |events| == 0 then Run(g, [])
    else
      var next := Feed(g, events[0]);
      var rest := Play(next, events[1..]);
      Run(rest.game, (if next.count == g.count + 1 then [events[0].side] else []) + rest.scorers)
  }

  /** Over any sequence of events the count grows by exactly the number of
      scoring cycles, each scoring hand differs from the previous scorer
      (the first from the hand that completed the last cycle before the
      run), and validity is kept. */
  lemma {:induction false} PlayAlternates(g: Game, events: seq<Gesture>)
    requires Valid(g)
    ensures var r := Play(g, events);
      && Valid(r.game)
      && r.game.count == g.count + |r.scorers|
      && AlternatesAfter(g.lastCompleted, r.scorers)
      && r.game.lastCompleted == (if |r.scorers| > 0 then Some(r.scorers[|r.scorers| - 1]) else g.lastCompleted)
    decreases |events|
  {
    if |events| > 0 {
      var next := Feed(g, events[0]);
      PlayAlternates(next, events[1..]);
      var rest := Play(next, events[1..]);
      var r := Play(g, events);
      if next.count == g.count + 1 {
        assert r.scorers == [events[0].side] + rest.scorers;
        assert r.scorers[1..] == rest.scorers;
      } else {
        assert r.scorers == rest.scorers;
      }
    }
  }

  /** Two consecutive scoring cycles are always by different hands. */
  lemma ScorersSwitchHands(g: Game, events: seq<Gesture>)
    requires Valid(g)
    ensures var ks := Play(g, events).scorers;
      forall i :: 0 <= i < |ks| - 1 ==> ks[i + 1] == Other(ks[i])
  {
    PlayAlternates(g, events);
    AlternatesPairwise(g.lastCompleted, Play(g, events).scorers);
  }
}
