/** The button handlers of the richer variant and the game as a whole: a session driven by a
    sequence of button presses and timer ticks. The phase machine runs Menu -> Playing on select,
    Playing -> GameOver when the death timer runs out, GameOver -> Menu on select, and the final
    score of every game is recorded exactly once. */
module Controls {
  import opened Arena
  import opened GameState
  import opened Spawn
  import opened Simulation
  import StepQueue
  import HighScores

  /** Half of the character's sprite size (PYORO_VISUAL_SIZE 5), which places the tongue. */
  const VisualHalf: real := 2.5
  /** Offset of the tongue's starting point beyond the sprite edge. */
  const MouthOffset: real := 0.6

  /** Whether movement and tongue buttons are live: in play, alive and the tongue in. */
  predicate Steerable(g: Game) {
    g.phase == Playing && !g.bird.dead && !g.bird.tongue.active
  }

  /** The up/down handlers (`wanted` -1 for up, 1 for down; `amount` 1 for a click, 4 for a repeat
      while held). Outside steerable play nothing changes; otherwise the character faces the
      pressed way and the press either turns it in place (emptying the queue) or queues steps.
      The character never moves here. */
  function MovePress(w: Session, wanted: int, amount: int): (r: Session)
    requires Valid(w)
    requires wanted in {-1, 1} && amount in {StepQueue.ClickSteps, StepQueue.RepeatSteps}
    ensures Valid(r)
    ensures !Steerable(w.game) ==> r == w
    ensures r == w.(queue := r.queue, game := w.game.(bird := w.game.bird.(facing := r.game.bird.facing)))
    ensures Steerable(w.game) ==> r.game.bird.facing == wanted
    ensures Steerable(w.game) && w.game.bird.facing != wanted ==> r.queue == StepQueue.Idle
    ensures Steerable(w.game) && w.game.bird.facing == wanted ==>
      && r.queue.dir == wanted
      && r.queue.count == (if w.queue.count + amount > StepQueue.MaxPending then StepQueue.MaxPending
                           else w.queue.count + amount)
  {
    var g := w.game;
    if !Steerable(g) then w
    else
      var t := StepQueue.Press(g.bird.facing, w.queue, wanted, amount);
      w.(game := g.(bird := g.bird.(facing := t.facing)), queue := t.queue)
  }

  /** The tongue as the select button shoots it: from just beyond the sprite on the facing side,
      a little above the character, heading the way it faces. */
  function ShotTongue(b: Bird): (t: Tongue)
    ensures t.active && !t.goingBack && !t.caughtBean && t.dir == b.facing
    ensures t.x == b.x + (VisualHalf + MouthOffset) * b.facing as real
    ensures t.y == b.y - VisualHalf + MouthOffset
  {
    Tongue(true, b.x + (VisualHalf + MouthOffset) * b.facing as real, b.y - VisualHalf + MouthOffset,
           b.facing, false, false)
  }

  /** The select handler: from the menu a fresh game starts; from the game-over screen back to
      the menu; in play with a living character and the tongue in, the queue is emptied and the
      tongue shot; otherwise nothing. */
  function SelectPress(w: Session): (r: Session)
    requires Valid(w)
    ensures Valid(r)
    ensures w.game.phase == Menu ==> r == Reset(w)
    ensures w.game.phase == GameOver ==> r == w.(game := w.game.(phase := Menu))
    ensures Steerable(w.game) ==>
      r == w.(queue := StepQueue.Idle, game := w.game.(bird := w.game.bird.(tongue := ShotTongue(w.game.bird))))
    ensures w.game.phase == Playing && !Steerable(w.game) ==> r == w
  {
    var g := w.game;
    if g.phase == Menu then Reset(w)
    else if g.phase == GameOver then w.(game := g.(phase := Menu))
    else if !g.bird.dead && !g.bird.tongue.active then
      w.(queue := StepQueue.Idle, game := g.(bird := g.bird.(tongue := ShotTongue(g.bird))))
    else w
  }

  datatype Button = Up | Down | UpRepeat | DownRepeat | Select

  /** What reaches the game: a button event, or a timer tick with its time step and the random
      draws a spawn on that tick would use. */
  datatype Event = Press(button: Button) | Frame(delta: real, roll: Roll)

  /** Ticks always carry a positive time step. */
  predicate Admissible(e: Event) {
    e.Frame? ==> e.delta > 0.0
  }

  /** One event applied to the session. */
  function Handle(w: Session, e: Event): (r: Session)
    requires Valid(w) && Admissible(e)
    ensures Valid(r)
    ensures r.game.score >= w.game.score || (w.game.phase == Menu && r.game.phase == Playing)
    ensures || r.game.phase == w.game.phase
            || (w.game.phase == Menu && r.game.phase == Playing)
            || (w.game.phase == Playing && r.game.phase == GameOver)
            || (w.game.phase == GameOver && r.game.phase == Menu)
    ensures w.game.phase == Playing && r.game.phase == GameOver ==>
      && e.Frame?
      && r.highScores == HighScores.Insert(w.highScores, w.game.score)
      && r.lastScore == w.game.score
    ensures !(w.game.phase == Playing && r.game.phase == GameOver) ==>
      r.highScores == w.highScores && r.lastScore == w.lastScore
    ensures w.game.phase == Menu && r.game.phase == Playing ==> r.game.score == 0 && e == Press(Select)
  {
    match e
    case Frame(delta, roll) => UpdateGame(w, delta, roll)
    case Press(Up) => MovePress(w, -1, StepQueue.ClickSteps)
    case Press(Down) => MovePress(w, 1, StepQueue.ClickSteps)
    case Press(UpRepeat) => MovePress(w, -1, StepQueue.RepeatSteps)
    case Press(DownRepeat) => MovePress(w, 1, StepQueue.RepeatSteps)
    case Press(Select) => SelectPress(w)
  }

  predicate AllAdmissible(es: seq<Event>) {
    forall i :: 0 <= i < |es| ==> Admissible(es[i])
  }

  /** The session after a sequence of events. */
  function Run(w: Session, es: seq<Event>): (r: Session)
    requires Valid(w) && AllAdmissible(es)
    ensures Valid(r)
    decreases |es|
  {
    if |es| == 0 then w else Run(Handle(w, es[0]), es[1..])
  }

  /** Number of events along a run that take the phase from `from` to `to`. */
  function Transitions(w: Session, es: seq<Event>, from: Phase, to: Phase): nat
    requires Valid(w) && AllAdmissible(es)
    decreases |es|
  {
    if |es| == 0 then 0
    else
      var w1 := Handle(w, es[0]);
      (if w.game.phase == from && w1.game.phase == to then 1 else 0) + Transitions(w1, es[1..], from, to)
  }

  /** Every game started is recorded exactly once: along any run, the games started (Menu ->
      Playing) plus one for a game in progress at the start equal the games recorded (Playing ->
      GameOver, the only events that write the table) plus one for a game still in progress at
      the end. */
  lemma {:induction false} OneRecordPerGame(w: Session, es: seq<Event>)
    requires Valid(w) && AllAdmissible(es)
    ensures Transitions(w, es, Playing, GameOver) + (if Run(w, es).game.phase == Playing then 1 else 0)
         == Transitions(w, es, Menu, Playing) + (if w.game.phase == Playing then 1 else 0)
    decreases |es|
  {
    if |es| > 0 {
      var w1 := Handle(w, es[0]);
      OneRecordPerGame(w1, es[1..]);
    }
  }

  /** A run in which no game ends leaves the top-10 table as it was. */
  lemma {:induction false} TableOnlyChangesAtGameOver(w: Session, es: seq<Event>)
    requires Valid(w) && AllAdmissible(es)
    requires Transitions(w, es, Playing, GameOver) == 0
    ensures Run(w, es).highScores == w.highScores
    decreases |es|
  {
    if |es| > 0 {
      var w1 := Handle(w, es[0]);
      TableOnlyChangesAtGameOver(w1, es[1..]);
    }
  }

  /** Once the game is over, ticks and movement buttons change nothing at all until select is
      pressed. */
  lemma {:induction false} GameOverIsFrozen(w: Session, es: seq<Event>)
    requires Valid(w) && AllAdmissible(es)
    requires w.game.phase == GameOver
    requires forall i :: 0 <= i < |es| ==> es[i] != Press(Select)
    ensures Run(w, es) == w
    decreases |es|
  {
    if |es| > 0 {
      assert Handle(w, es[0]) == w;
      GameOverIsFrozen(w, es[1..]);
    }
  }

  /** A living tick scores exactly when it brings a returning tongue that holds a bean back to
      the character, and then by exactly 10. */
  lemma CatchScoresTen(w: Session, delta: real, roll: Roll)
    requires Valid(w) && w.game.phase == Playing && !w.game.paused && !w.game.bird.dead && delta > 0.0
    ensures var t := w.game.bird.tongue;
      UpdateGame(w, delta, roll).game.score
        == w.game.score + (if t.active && t.goingBack && t.caughtBean && HeldSlot(w.game.beans) >= 0
                              && t.y + TongueSpeed * 2.0 * Scaled(delta, w.game.speed) >= BirdY then 10 else 0)
  {
    var dt := Scaled(delta, w.game.speed);
    var w2 := Advance(w, dt);
    assert w2.game.bird.tongue == w.game.bird.tongue && w2.game.beans == w.game.beans;
    assert UpdateGame(w, delta, roll).game == Physics(w2.game, dt, roll);
  }

  /** A living tick that brings a pink bean back to the character, with a block destroyed and no
      angel about, launches the angel toward the first destroyed block. */
  lemma PinkCatchLaunchesAngel(w: Session, delta: real, roll: Roll)
    requires Valid(w) && w.game.phase == Playing && !w.game.paused && !w.game.bird.dead && delta > 0.0
    requires var t := w.game.bird.tongue; var k := HeldSlot(w.game.beans);
      && t.active && t.goingBack && t.caughtBean && t.y + TongueSpeed * 2.0 * Scaled(delta, w.game.speed) >= BirdY
      && 0 <= k && w.game.beans[k].color == Pink
    requires FindDestroyedBlock(w.game.blocks) >= 0 && !w.game.angel.active
    ensures var r := UpdateGame(w, delta, roll).game; var d := FindDestroyedBlock(w.game.blocks);
      var dt := Scaled(delta, w.game.speed);
      && r.angel.active && r.angel.target == d && r.angel.x == d as real + 0.5 && r.angel.y == AngelSpeed * dt
      && (AngelSpeed * dt < GroundY ==> !r.angel.goingUp && r.blocks[d] == Block(false, true))
      && (AngelSpeed * dt >= GroundY ==> r.angel.goingUp && r.blocks[d] == Block(true, false))
  {
    var dt := Scaled(delta, w.game.speed);
    var w2 := Advance(w, dt);
    assert w2.game.bird.tongue == w.game.bird.tongue && w2.game.beans == w.game.beans;
    assert w2.game.blocks == w.game.blocks && w2.game.angel == w.game.angel;
    PhysicsLaunchesAngel(w2.game, dt, roll);
    assert UpdateGame(w, delta, roll).game == Physics(w2.game, dt, roll);
  }

  /** A living tick with the tongue in and a step queued on an intact ledge moves the character
      a quarter unit toward the queued side, clamped to the grid, and uses up that step. */
  lemma QueuedStepMoves(w: Session, delta: real, roll: Roll)
    requires Valid(w) && w.game.phase == Playing && !w.game.paused && !w.game.bird.dead && delta > 0.0
    requires !w.game.bird.tongue.active && StepQueue.Pending(w.queue)
    requires forall i :: 0 <= i < Width ==> w.game.blocks[i].present
    ensures var r := UpdateGame(w, delta, roll);
      && r.game.bird.x == Clamp(w.game.bird.x + w.queue.dir as real * StepQueue.SingleStep, BirdHalf)
      && r.queue == StepQueue.Consume(w.queue)
  {
    var dt := Scaled(delta, w.game.speed);
    var w1 := w.(game := w.game.(speed := w.game.speed + dt * SpeedAcceleration));
    assert Advance(w, dt) == DrainQueue(w1);
    var m := ApplyStep(w.game.bird.x, w.game.blocks, w.queue.dir);
    assert m.moved;
    assert UpdateGame(w, delta, roll) == LiveTick(w, delta, roll);
  }

  /** The score never decreases along a run in which no new game is started. */
  lemma {:induction false} ScoreNeverDecreases(w: Session, es: seq<Event>)
    requires Valid(w) && AllAdmissible(es)
    ensures Run(w, es).game.score >= w.game.score || Transitions(w, es, Menu, Playing) > 0
    decreases |es|
  {
    if |es| > 0 {
      var w1 := Handle(w, es[0]);
      ScoreNeverDecreases(w1, es[1..]);
    }
  }
}
