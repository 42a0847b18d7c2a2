/** The state of the richer variant of the game: the character with its tongue, the pool of five
    beans, the twenty ledge blocks, the repair angel, score, speed and timers, plus the values the
    source keeps beside the game record (the step queue, the top-10 table, the last game's score
    and the background index). */
module GameState {
  import opened Arena
  import StepQueue
  import HighScores

  /** The character: position, facing (-1 left, 1 right), whether it was hit, and its tongue. */
  datatype Bird = Bird(x: real, y: real, facing: int, dead: bool, tongue: Tongue)

  datatype Color = Green | Pink

  /** A bean slot of the fixed pool; `speed` is the per-bean fall multiplier. */
  datatype Bean = Bean(x: real, y: real, speed: real, active: bool, caught: bool, color: Color)

  /** A ledge block: whether it stands and whether the angel is on its way to rebuild it. */
  datatype Block = Block(present: bool, repairing: bool)

  /** The repair angel: descending toward its target column, then ascending off the top. */
  datatype Angel = Angel(active: bool, x: real, y: real, target: int, goingUp: bool)

  datatype Game = Game(
    phase: Phase,
    bird: Bird,
    beans: seq<Bean>,
    blocks: seq<Block>,
    angel: Angel,
    score: int,
    speed: real,
    spawnTimer: real,
    deathTimer: real,
    paused: bool)

  /** Everything the simulation reads and writes between two calls. */
  datatype Session = Session(
    game: Game,
    queue: StepQueue.Queue,
    highScores: seq<int>,
    lastScore: int,
    background: int)

  const IdleBean: Bean := Bean(0.0, 0.0, 0.0, false, false, Green)
  const IdleAngel: Angel := Angel(false, 0.0, 0.0, 0, false)

  /** `init_game`: the character centred and facing right, every block standing, every bean slot
      free, no angel, score 0, speed 1, in the menu. */
  function InitGame(): (g: Game)
    ensures g.phase == Menu && g.score == 0 && g.speed == 1.0
    ensures g.spawnTimer == 0.0 && g.deathTimer == 0.0 && !g.paused
    ensures g.bird.x == 10.0 && g.bird.y == BirdY && g.bird.facing == 1
    ensures |g.beans| == PoolSize && forall i :: 0 <= i < PoolSize ==> !g.beans[i].active && g.beans[i].color == Green
    ensures |g.blocks| == Width && forall i :: 0 <= i < Width ==> g.blocks[i] == Block(true, false)
    ensures !g.angel.active && !g.bird.dead && !g.bird.tongue.active
  {
    Game(
      Menu,
      Bird(Width as real / 2.0, Height as real - 2.0, 1, false, Retracted),
      [IdleBean, IdleBean, IdleBean, IdleBean, IdleBean],
      seq(Width, _ => Block(true, false)),
      IdleAngel,
      0, 1.0, 0.0, 0.0, false)
  }

  /** The session at start-up, before any game: the menu, an empty queue and an unused table. */
  function InitialSession(): Session {
    Session(InitGame(), StepQueue.Idle, HighScores.EmptyTable, 0, 0)
  }

  /** `reset_game`: a fresh game that is already being played, the step queue emptied and the
      background back to the first image; the top-10 table and last score are kept. */
  function Reset(w: Session): (r: Session)
    ensures r.game == InitGame().(phase := Playing)
    ensures r.queue == StepQueue.Idle && r.background == 0
    ensures r.highScores == w.highScores && r.lastScore == w.lastScore
  {
    Session(InitGame().(phase := Playing), StepQueue.Idle, w.highScores, w.lastScore, 0)
  }

  /** The flags of the ledge: which columns hold a block. */
  function Solid(blocks: seq<Block>): (s: seq<bool>)
    ensures |s| == |blocks|
    ensures forall i :: 0 <= i < |blocks| ==> s[i] == blocks[i].present
  {
    seq(|blocks|, i requires 0 <= i < |blocks| => blocks[i].present)
  }

  /** The repair protocol's invariant: a block marked as under repair is missing and is the
      target of the active, still descending angel (so at most one block is under repair), and a
      descending angel's target is a block marked as under repair. */
  predicate RepairConsistent(blocks: seq<Block>, angel: Angel)
    requires |blocks| == Width
  {
    && (forall i :: 0 <= i < Width && blocks[i].repairing ==>
          !blocks[i].present && angel.active && !angel.goingUp && angel.target == i)
    && (angel.active && !angel.goingUp ==> 0 <= angel.target < Width && blocks[angel.target].repairing)
  }

  /** The invariant of the game record in every reachable session. */
  predicate GameOk(g: Game) {
    && |g.beans| == PoolSize
    && |g.blocks| == Width
    && g.bird.facing in {-1, 1}
    && g.bird.y == BirdY
    && 1.0 <= g.bird.x <= Width as real - 1.0
    && RepairConsistent(g.blocks, g.angel)
    && g.score >= 0
    && g.speed >= 1.0
  }

  /** The invariant every reachable session satisfies. */
  predicate Valid(w: Session) {
    && GameOk(w.game)
    && HighScores.Ranked(w.highScores)
    && StepQueue.Consistent(w.queue, w.game.bird.facing)
  }

  /** Start-up and every reset produce a valid session. */
  lemma InitialValid(w: Session)
    requires HighScores.Ranked(w.highScores)
    ensures Valid(InitialSession())
    ensures Valid(Reset(w))
  {
    assert HighScores.Ranked(HighScores.EmptyTable);
  }
}
