/**
 The Flappy Bird game state (`Game`, `Pipe`, `Bird`) of
 games/flappy_bird/game.py and of the older root game.py, which differ only
 in jump strength and gravity: pipes spawn every 90 frames at the right
 edge, move 3 pixels left per frame, score one point each once they are
 behind the bird, and are dropped once fully off screen.
 */
module FlappyGame {

  const ScreenWidth := 400
  const ScreenHeight := 600
  const GroundHeight := 100
  const PipeWidth := 60
  const PipeGap := 150
  const PipeSpeed := 3
  const PipeSpawnRate := 90
  const BirdRadius := 15
  /** `SCREEN_WIDTH // 4`. */
  const BirdX := 100

  /** The constants in which the two copies differ. */
  datatype Config = Config(jumpStrength: real, gravity: real)

  const CurrentConfig := Config(-6.0, 0.7)
  const LegacyConfig := Config(-8.0, 0.5)

  /** The bird's vertical state; floats are modelled as exact reals. */
  datatype Bird = Bird(y: real, velocity: real)

  datatype Pipe = Pipe(x: int, gapY: int, passed: bool)

  /** A `pygame.Rect`: left, top, width, height. */
  datatype Rect = Rect(left: int, top: int, width: int, height: int)

  datatype Game = Game(bird: Bird, pipes: seq<Pipe>, score: nat, highScore: nat,
                       over: bool, started: bool, frameCount: nat)

  /** A pipe as it can be found in a running game: spawned at the right
      edge with a gap in 150..350, not yet off screen, and already scored
      once its right edge is behind the bird. */
  predicate PipeOk(p: Pipe)
  {
    && !OffScreen(p) && p.x <= ScreenWidth
    && 150 <= p.gapY <= ScreenHeight - GroundHeight - 150
    && (p.x + PipeWidth < BirdX ==> p.passed)
  }

  /** What every reachable game satisfies. */
  predicate Valid(g: Game)
  {
    g.highScore >= g.score && forall i :: 0 <= i < |g.pipes| ==> PipeOk(g.pipes[i])
  }

  /** `Game.reset`; the high score is kept. */
  function Reset(g: Game): (r: Game)
    ensures Valid(r)
    ensures r.bird == Bird((ScreenHeight / 2) as real, 0.0)
    ensures r.pipes == [] && r.score == 0 && !r.over && !r.started && r.frameCount == 0
    ensures r.highScore == g.highScore
  {
    Game(Bird((ScreenHeight / 2) as real, 0.0), [], 0, g.highScore, false, false, 0)
  }

  /** `Bird.jump`. */
  function Jump(cfg: Config, b: Bird): (r: Bird)
    ensures r.y == b.y && r.velocity == cfg.jumpStrength
  {
    b.(velocity := cfg.jumpStrength)
  }

  /** `Bird.update`: gravity, then the move. */
  function Fall(cfg: Config, b: Bird): (r: Bird)
    ensures r.velocity == b.velocity + cfg.gravity
    ensures r.y - b.y == r.velocity
  {
    var v := b.velocity + cfg.gravity;
    Bird(b.y + v, v)
  }

  /** `handle_jump`: refused after game over; otherwise it starts the game
      and jumps. */
  function HandleJump(cfg: Config, g: Game): (r: (Game, bool))
    ensures g.over ==> r == (g, false)
    ensures !g.over ==> r.1 && r.0 == g.(started := true, bird := Jump(cfg, g.bird))
    ensures r.1 <==> !g.over
    ensures Valid(g) ==> Valid(r.0)
  {
    if !g.over then (g.(started := true, bird := Jump(cfg, g.bird)), true)
    else (g, false)
  }

  /** A pipe appearing at the right edge; `gapY` is the value of
      `random.randint(150, 350)`. */
  function NewPipe(gapY: int): (p: Pipe)
    requires 150 <= gapY <= ScreenHeight - GroundHeight - 150
    ensures p.x == ScreenWidth && !p.passed && p.gapY == gapY
  {
    Pipe(ScreenWidth, gapY, false)
  }

  /** `Pipe.get_rects`: the top pipe and the bottom pipe. */
  function GetRects(p: Pipe): (r: (Rect, Rect))
    ensures r.0.left == p.x && r.1.left == p.x && r.0.width == PipeWidth && r.1.width == PipeWidth
    // the top pipe hangs from the ceiling, the bottom one stands on the ground
    ensures r.0.top == 0 && r.1.top + r.1.height == ScreenHeight - GroundHeight
    // the opening between them is exactly the pipe gap, centred on gap_y
    ensures r.1.top - (r.0.top + r.0.height) == PipeGap
    ensures r.0.top + r.0.height == p.gapY - PipeGap / 2 && r.1.top == p.gapY + PipeGap / 2
    ensures 150 <= p.gapY <= 350 ==> r.0.height >= 75 && r.1.height >= 75
  {
    var top := Rect(p.x, 0, PipeWidth, p.gapY - PipeGap / 2);
    var bottomY := p.gapY + PipeGap / 2;
    (top, Rect(p.x, bottomY, PipeWidth, ScreenHeight - GroundHeight - bottomY))
  }

  /** One pipe's part of the pipe loop: it moves left and, the first time its
      right edge is left of the bird, scores. */
  function StepPipe(p: Pipe): (r: (Pipe, bool))
    ensures r.0.x == p.x - PipeSpeed && r.0.gapY == p.gapY
    ensures r.1 <==> !p.passed && r.0.x + PipeWidth < BirdX
    ensures r.0.passed <==> p.passed || r.1
    // with the bird at x = 100, a pipe is behind it well before it leaves the screen
    ensures OffScreen(r.0) ==> r.0.passed
  {
    var moved := p.(x := p.x - PipeSpeed);
    if !moved.passed && moved.x + PipeWidth < BirdX then (moved.(passed := true), true)
    else (moved, false)
  }

  /** The pipe is dropped: its right edge is off the left of the screen. */
  predicate OffScreen(p: Pipe)
  {
    p.x + PipeWidth < 0
  }

  datatype PipesResult = PipesResult(pipes: seq<Pipe>, scored: nat)

  /** The pipe loop over a copy of the list, removing off-screen pipes. */
  function StepPipes(pipes: seq<Pipe>): (r: PipesResult)
    ensures |r.pipes| <= |pipes| && r.scored <= |pipes|
    // the kept pipes are the moved pipes still on screen, in their order
    ensures r.pipes == OnScreen(StepAll(pipes))
    ensures forall i :: 0 <= i < |r.pipes| ==> !OffScreen(r.pipes[i]) && r.pipes[i] in StepAll(pipes)
    ensures forall i :: 0 <= i < |pipes| && !OffScreen(StepPipe(pipes[i]).0) ==> StepPipe(pipes[i]).0 in r.pipes
    decreases |pipes|
  {
    if |pipes| == 0 then PipesResult([], 0)
    else
      var (p, scored) := StepPipe(pipes[0]);
      var rest := StepPipes(pipes[1..]);
      assert forall i :: 1 <= i < |pipes| ==> pipes[i] == pipes[1..][i - 1];
      assert StepAll(pipes)[1..] == StepAll(pipes[1..]);
      PipesResult((if OffScreen(p) then [] else [p]) + rest.pipes, (if scored then 1 else 0) + rest.scored)
  }

  /** The pipes still on screen, in order. */
  function OnScreen(ps: seq<Pipe>): (r: seq<Pipe>)
    ensures |r| <= |ps|
    ensures forall i :: 0 <= i < |r| ==> !OffScreen(r[i]) && r[i] in ps
    ensures forall i :: 0 <= i < |ps| && !OffScreen(ps[i]) ==> ps[i] in r
  {
    if |ps| == 0 then []
    else
      assert forall i :: 1 <= i < |ps| ==> ps[i] == ps[1..][i - 1];
      (if OffScreen(ps[0]) then [] else [ps[0]]) + OnScreen(ps[1..])
  }

  /** Moving keeps every pipe in shape, and the kept ones stay in shape. */
  lemma StepPipesKeepOk(pipes: seq<Pipe>)
    ensures (forall i :: 0 <= i < |pipes| ==> PipeOk(pipes[i])) ==>
      forall i :: 0 <= i < |StepPipes(pipes).pipes| ==> PipeOk(StepPipes(pipes).pipes[i])
  {
  }

  /** Every pipe moved, nothing dropped. */
  function StepAll(pipes: seq<Pipe>): (r: seq<Pipe>)
    ensures |r| == |pipes|
    ensures forall i :: 0 <= i < |pipes| ==> r[i] == StepPipe(pipes[i]).0
  {
    if |pipes| == 0 then [] else [StepPipe(pipes[0]).0] + StepAll(pipes[1..])
  }

  /** The number of pipes that score in this loop: those not yet passed
      whose right edge is now left of the bird. */
  function NewlyPassed(pipes: seq<Pipe>): (n: nat)
    ensures n <= |pipes|
  {
    if |pipes| == 0 then 0
    else (if !pipes[0].passed && pipes[0].x - PipeSpeed + PipeWidth < BirdX then 1 else 0) + NewlyPassed(pipes[1..])
  }

  lemma {:induction false} StepPipesScore(pipes: seq<Pipe>)
    ensures StepPipes(pipes).scored == NewlyPassed(pipes)
    decreases |pipes|
  {
    if |pipes| > 0 {
      StepPipesScore(pipes[1..]);
    }
  }

  /** `Game.update`. `gapY` is the random gap of a pipe spawned this frame
      and `hitsPipe` the result of the pygame rectangle test of the bird
      against the pipes; both are inputs. */
  function Update(cfg: Config, g: Game, gapY: int, hitsPipe: bool): (r: Game)
    requires 150 <= gapY <= 350
    ensures !g.started || g.over ==> r == g
    ensures r.started == g.started
    ensures r.score >= g.score
    ensures g.highScore >= g.score ==> r.highScore >= r.score
    ensures r.highScore >= g.highScore
    ensures Valid(g) ==> Valid(r)
    ensures g.started && !g.over ==>
      && r.frameCount == g.frameCount + 1
      && r.bird == Fall(cfg, g.bird)
      && r.pipes == StepPipes(SpawnAt(g.pipes, r.frameCount, gapY)).pipes
      && r.score == g.score + NewlyPassed(SpawnAt(g.pipes, r.frameCount, gapY))
      && r.highScore == (if r.score > g.highScore then r.score else g.highScore)
      && (r.over <==> Grounded(r.bird) || hitsPipe)
      && forall i :: 0 <= i < |r.pipes| ==> !OffScreen(r.pipes[i])
  {
    if !g.started || g.over then g
    else
      var frame := g.frameCount + 1;
      var bird := Fall(cfg, g.bird);
      var spawned := SpawnAt(g.pipes, frame, gapY);
      var moved := StepPipes(spawned);
      StepPipesScore(spawned);
      SpawnKeepsOk(g.pipes, frame, gapY);
      StepPipesKeepOk(spawned);
      var score := g.score + moved.scored;
      var high := if score > g.highScore then score else g.highScore;
      var g1 := Game(bird, moved.pipes, score, high, g.over, g.started, frame);
      if Grounded(bird) || hitsPipe then g1.(over := true) else g1
  }

  /** The spawn step: a new pipe on every 90th frame. */
  function SpawnAt(pipes: seq<Pipe>, frame: nat, gapY: int): (r: seq<Pipe>)
    requires 150 <= gapY <= 350
    ensures frame % PipeSpawnRate == 0 ==> r == pipes + [NewPipe(gapY)]
    ensures frame % PipeSpawnRate != 0 ==> r == pipes
  {
    if frame % PipeSpawnRate == 0 then pipes + [NewPipe(gapY)] else pipes
  }

  /** A spawned pipe is in shape. */
  lemma SpawnKeepsOk(pipes: seq<Pipe>, frame: nat, gapY: int)
    requires 150 <= gapY <= 350
    ensures (forall i :: 0 <= i < |pipes| ==> PipeOk(pipes[i])) ==>
      forall i :: 0 <= i < |SpawnAt(pipes, frame, gapY)| ==> PipeOk(SpawnAt(pipes, frame, gapY)[i])
  {
  }

  /** The ground and ceiling test. */
  predicate Grounded(b: Bird)
  {
    b.y + BirdRadius as real >= (ScreenHeight - GroundHeight) as real || b.y - BirdRadius as real <= 0.0
  }

  // ---------------------------------------------------------------------
  // A pipe's life.
  // ---------------------------------------------------------------------

  /** The points one pipe earns over `k` frames. */
  function PointsOver(p: Pipe, k: nat): nat
    decreases k
  {
    if k == 0 then 0
    else
      var (q, scored) := StepPipe(p);
      (if scored then 1 else 0) + PointsOver(q, k - 1)
  }

  /** Over any number of frames a pipe earns at most one point, and an
      unpassed one earns it exactly when its right edge ends up left of the
      bird. */
  lemma {:induction false} PipeScoresOnce(p: Pipe, k: nat)
    ensures PointsOver(p, k) <= 1
    ensures p.passed ==> PointsOver(p, k) == 0
    ensures !p.passed ==> (PointsOver(p, k) == 1 <==> k > 0 && p.x - PipeSpeed * k + PipeWidth < BirdX)
    decreases k
  {
    if k > 0 {
      var (q, scored) := StepPipe(p);
      PipeScoresOnce(q, k - 1);
    }
  }

  /** A freshly spawned pipe scores on its 121st frame. */
  lemma NewPipeScoresAt121(gapY: int)
    requires 150 <= gapY <= 350
    ensures PointsOver(NewPipe(gapY), 120) == 0
    ensures PointsOver(NewPipe(gapY), 121) == 1
  {
    PipeScoresOnce(NewPipe(gapY), 120);
    PipeScoresOnce(NewPipe(gapY), 121);
  }
}
