/** One tick of the richer variant (`update_game`), as an ordered pipeline of pure stages: the
    death countdown, the speed ramp, the step-queue drain, the tongue, the falling beans, the
    angel, the bean spawner and the background index. Every stage keeps the session invariant. */
module Simulation {
  import opened Arena
  import opened Scan
  import opened GameState
  import opened Spawn
  import StepQueue
  import HighScores

  /** Half of the character's collision size (PYORO_SIZE 2). */
  const BirdHalf: real := 1.0
  const BirdSize: real := 2.0
  const AngelSpeed: real := 35.0
  const ScorePerBackground: int := 40
  const LastBackground: int := 20

  // ---------------------------------------------------------------- movement

  /** `apply_pyoro_step`: one quarter-unit step in direction `dir`, clamped to [1, 19] and refused
      when a column under the character's two-unit footprint at the new position is missing. */
  function ApplyStep(x: real, blocks: seq<Block>, dir: int): (m: Move)
    requires |blocks| == Width
    ensures m.moved ==> m.x == Clamp(x + dir as real * StepQueue.SingleStep, BirdHalf)
    ensures m.moved ==> 1.0 <= m.x <= Width as real - 1.0
    ensures !m.moved ==> m.x == x
    ensures !m.moved <==>
      exists i :: (Clamp(x + dir as real * StepQueue.SingleStep, BirdHalf) - BirdHalf).Floor <= i
               && i <= (Clamp(x + dir as real * StepQueue.SingleStep, BirdHalf) + BirdHalf).Floor
               && 0 <= i < Width && !blocks[i].present
  {
    TryMove(x, x + dir as real * StepQueue.SingleStep, BirdHalf, Solid(blocks))
  }

  /** Drain stage: with the tongue out the queue is emptied; otherwise one pending step is
      attempted and consumed whether or not it was taken. Only the queue and the character's x
      change. */
  function DrainQueue(w: Session): (r: Session)
    requires Valid(w)
    ensures Valid(r)
    ensures r == w.(queue := r.queue, game := w.game.(bird := w.game.bird.(x := r.game.bird.x)))
    ensures w.game.bird.tongue.active ==> r.queue == StepQueue.Idle && r.game == w.game
    ensures !w.game.bird.tongue.active && StepQueue.Pending(w.queue) ==>
      && r.queue == StepQueue.Consume(w.queue) && r.queue.count == w.queue.count - 1
      && r.game.bird.x == ApplyStep(w.game.bird.x, w.game.blocks, w.queue.dir).x
    ensures !w.game.bird.tongue.active && !StepQueue.Pending(w.queue) ==> r == w
  {
    var g := w.game;
    if g.bird.tongue.active then w.(queue := StepQueue.Idle)
    else if StepQueue.Pending(w.queue) then
      var m := ApplyStep(g.bird.x, g.blocks, w.queue.dir);
      w.(game := g.(bird := g.bird.(x := m.x)), queue := StepQueue.Consume(w.queue))
    else w
  }

  // ---------------------------------------------------------------- tongue

  /** The first bean that is active and held by the tongue, or -1. */
  function HeldSlot(beans: seq<Bean>): (k: int)
    ensures -1 <= k < |beans|
    ensures 0 <= k ==> beans[k].active && beans[k].caught
    ensures forall j :: 0 <= j < |beans| && (k < 0 || j < k) ==> !(beans[j].active && beans[j].caught)
  {
    FirstWhere(beans, (b: Bean) => b.active && b.caught)
  }

  /** The first active, free bean whose box overlaps the tongue tip's box at (tx, ty), or -1. */
  function HitSlot(beans: seq<Bean>, tx: real, ty: real): (k: int)
    ensures -1 <= k < |beans|
    ensures 0 <= k ==> beans[k].active && !beans[k].caught
                       && Collide(tx, ty, TongueWidth, TongueWidth, beans[k].x, beans[k].y, BeanSize, BeanSize)
    ensures forall j :: 0 <= j < |beans| && (k < 0 || j < k) ==>
      !(beans[j].active && !beans[j].caught
        && Collide(tx, ty, TongueWidth, TongueWidth, beans[j].x, beans[j].y, BeanSize, BeanSize))
  {
    FirstWhere(beans, (b: Bean) => b.active && !b.caught
                                   && Collide(tx, ty, TongueWidth, TongueWidth, b.x, b.y, BeanSize, BeanSize))
  }

  /** Extending tongue: the tip moves up and along the facing; the first free bean it touches is
      caught and the tongue turns back; leaving the grid also turns it back. */
  function ExtendTongue(g: Game, dt: real): (r: Game)
    requires |g.beans| == PoolSize
    ensures r == g.(beans := r.beans, bird := g.bird.(tongue := r.bird.tongue))
    ensures |r.beans| == PoolSize
    ensures r.bird.tongue.active == g.bird.tongue.active && r.bird.tongue.dir == g.bird.tongue.dir
    ensures forall j :: 0 <= j < PoolSize ==> r.beans[j].active == g.beans[j].active
    ensures r.bird.tongue.caughtBean != g.bird.tongue.caughtBean ==> r.bird.tongue.goingBack
    ensures var t := g.bird.tongue;
      var tx := t.x + t.dir as real * (TongueSpeed * dt); var ty := t.y - TongueSpeed * dt;
      var k := HitSlot(g.beans, tx, ty);
      && r.bird.tongue.x == tx && r.bird.tongue.y == ty
      && (0 <= k ==> r.beans == g.beans[k := g.beans[k].(caught := true)] && r.bird.tongue.caughtBean)
      && (k < 0 ==> r.beans == g.beans && r.bird.tongue.caughtBean == t.caughtBean)
      && (r.bird.tongue.goingBack <==> t.goingBack || 0 <= k || OffGrid(tx, ty))
  {
    var t := g.bird.tongue;
    var tx := t.x + t.dir as real * (TongueSpeed * dt);
    var ty := t.y - TongueSpeed * dt;
    var k := HitSlot(g.beans, tx, ty);
    var hit := 0 <= k;
    var beans := if hit then g.beans[k := g.beans[k].(caught := true)] else g.beans;
    g.(beans := beans,
       bird := g.bird.(tongue := t.(x := tx, y := ty, caughtBean := t.caughtBean || hit,
                                    goingBack := t.goingBack || hit || OffGrid(tx, ty))))
  }

  /** The tongue is back holding a bean: a pink bean calls the angel to the first destroyed
      block, the catch is scored from the tip height, and the bean leaves the pool. */
  function Swallow(g: Game): (r: Game)
    requires |g.beans| == PoolSize && |g.blocks| == Width
    ensures r == g.(beans := r.beans, blocks := r.blocks, angel := r.angel, score := r.score)
    ensures |r.beans| == PoolSize && |r.blocks| == Width
    ensures HeldSlot(g.beans) < 0 ==> r == g
    ensures var k := HeldSlot(g.beans);
      0 <= k ==> r.score == g.score + CatchAward(g.bird.tongue.y) && r.beans == g.beans[k := g.beans[k].(active := false)]
    ensures var k := HeldSlot(g.beans); var d := FindDestroyedBlock(g.blocks);
      0 <= k && g.beans[k].color == Pink && 0 <= d && !g.angel.active ==>
        r.angel == Angel(true, d as real + 0.5, 0.0, d, false) && r.blocks == g.blocks[d := Block(false, true)]
    ensures var k := HeldSlot(g.beans);
      k < 0 || g.beans[k].color == Green || FindDestroyedBlock(g.blocks) < 0 || g.angel.active ==>
        r.angel == g.angel && r.blocks == g.blocks
    ensures forall j :: 0 <= j < Width ==> r.blocks[j].present == g.blocks[j].present
    ensures RepairConsistent(g.blocks, g.angel) ==> RepairConsistent(r.blocks, r.angel)
  {
    var k := HeldSlot(g.beans);
    if k < 0 then g
    else
      var b := g.beans[k];
      var d := FindDestroyedBlock(g.blocks);
      var repair := if b.color == Pink && 0 <= d then SpawnAngel(g.blocks, g.angel, d) else (g.blocks, g.angel);
      g.(blocks := repair.0, angel := repair.1,
         score := g.score + CatchAward(g.bird.tongue.y),
         beans := g.beans[k := b.(active := false)])
  }

  /** The retracting tip moves back toward the character at twice the extension speed; a tongue
      that caught a bean drags the first held bean along with its tip. */
  function Drag(g: Game, dt: real): (r: Game)
    requires |g.beans| == PoolSize
    ensures r == g.(beans := r.beans, bird := g.bird.(tongue := r.bird.tongue))
    ensures |r.beans| == PoolSize
    ensures var t := g.bird.tongue; var rs := TongueSpeed * 2.0 * dt;
      r.bird.tongue == t.(x := t.x - t.dir as real * rs, y := t.y + rs)
    ensures var k := HeldSlot(g.beans);
      && (g.bird.tongue.caughtBean && 0 <= k ==>
            r.beans == g.beans[k := g.beans[k].(x := r.bird.tongue.x, y := r.bird.tongue.y)])
      && (!(g.bird.tongue.caughtBean && 0 <= k) ==> r.beans == g.beans)
    ensures HeldSlot(r.beans) == HeldSlot(g.beans)
  {
    var t := g.bird.tongue;
    var rs := TongueSpeed * 2.0 * dt;
    var t1 := t.(x := t.x - t.dir as real * rs, y := t.y + rs);
    var k := HeldSlot(g.beans);
    if t.caughtBean && 0 <= k then
      var beans := g.beans[k := g.beans[k].(x := t1.x, y := t1.y)];
      assert HeldSlot(beans) == k by { FirstWhereUnique(beans, (b: Bean) => b.active && b.caught, k); }
      g.(beans := beans, bird := g.bird.(tongue := t1))
    else g.(bird := g.bird.(tongue := t1))
  }

  /** Retracting tongue: the tip moves back at twice the speed dragging the held bean; once it is
      level with the character the catch is settled and the tongue goes inactive. */
  function RetractTongue(g: Game, dt: real): (r: Game)
    requires |g.beans| == PoolSize && |g.blocks| == Width
    ensures r == g.(beans := r.beans, blocks := r.blocks, angel := r.angel, score := r.score,
                    bird := g.bird.(tongue := r.bird.tongue))
    ensures |r.beans| == PoolSize && |r.blocks| == Width
    ensures r.bird.tongue.dir == g.bird.tongue.dir
    ensures var t := g.bird.tongue; var rs := TongueSpeed * 2.0 * dt;
      var tx := t.x - t.dir as real * rs; var ty := t.y + rs; var k := HeldSlot(g.beans);
      && r.bird.tongue == t.(x := tx, y := ty, active := t.active && ty < g.bird.y)
      && (ty < g.bird.y ==> r.score == g.score && r.blocks == g.blocks && r.angel == g.angel)
      && (ty < g.bird.y && t.caughtBean && 0 <= k ==> r.beans == g.beans[k := g.beans[k].(x := tx, y := ty)])
      && (ty < g.bird.y && !(t.caughtBean && 0 <= k) ==> r.beans == g.beans)
      && (ty >= g.bird.y && t.caughtBean && 0 <= k ==> r.score == g.score + CatchAward(ty) && !r.beans[k].active)
      && (!(t.caughtBean && 0 <= k) ==> r.score == g.score)
    ensures var t := g.bird.tongue; var ty := t.y + TongueSpeed * 2.0 * dt; var k := HeldSlot(g.beans);
      && (!(t.caughtBean && 0 <= k) ==> r.beans == g.beans && r.blocks == g.blocks && r.angel == g.angel)
      && (ty >= g.bird.y && t.caughtBean && 0 <= k ==>
            r.beans == g.beans[k := g.beans[k].(x := t.x - t.dir as real * (TongueSpeed * 2.0 * dt), y := ty, active := false)])
    ensures var t := g.bird.tongue; var k := HeldSlot(g.beans); var d := FindDestroyedBlock(g.blocks);
      if t.y + TongueSpeed * 2.0 * dt >= g.bird.y && t.caughtBean && 0 <= k && g.beans[k].color == Pink
         && 0 <= d && !g.angel.active
      then r.angel == Angel(true, d as real + 0.5, 0.0, d, false) && r.blocks == g.blocks[d := Block(false, true)]
      else r.angel == g.angel && r.blocks == g.blocks
    ensures forall j :: 0 <= j < Width ==> r.blocks[j].present == g.blocks[j].present
    ensures RepairConsistent(g.blocks, g.angel) ==> RepairConsistent(r.blocks, r.angel)
  {
    var g1 := Drag(g, dt);
    var t1 := g1.bird.tongue;
    if t1.y >= g.bird.y then
      var g2 := if t1.caughtBean then Swallow(g1) else g1;
      g2.(bird := g2.bird.(tongue := t1.(active := false)))
    else g1
  }

  /** Tongue stage. A completed catch always happens at the character's height (18), below four
      fifths of the grid, so every catch scores exactly 10. */
  function UpdateTongue(g: Game, dt: real): (r: Game)
    requires |g.beans| == PoolSize && |g.blocks| == Width
    requires g.bird.y == BirdY
    ensures r == g.(beans := r.beans, blocks := r.blocks, angel := r.angel, score := r.score,
                    bird := g.bird.(tongue := r.bird.tongue))
    ensures |r.beans| == PoolSize && |r.blocks| == Width
    ensures !g.bird.tongue.active ==> r == g
    ensures r.score == g.score || (r.score == g.score + 10 && g.bird.tongue.goingBack && !r.bird.tongue.active)
    ensures var t := g.bird.tongue;
      t.active && t.goingBack && t.y + TongueSpeed * 2.0 * dt >= BirdY ==>
        && !r.bird.tongue.active
        && (r.score == g.score + 10 <==> t.caughtBean && HeldSlot(g.beans) >= 0)
    ensures var t := g.bird.tongue;
      t.active && (!t.goingBack || t.y + TongueSpeed * 2.0 * dt < BirdY) ==> r.bird.tongue.active && r.score == g.score
    ensures forall j :: 0 <= j < Width ==> r.blocks[j].present == g.blocks[j].present
    ensures RepairConsistent(g.blocks, g.angel) ==> RepairConsistent(r.blocks, r.angel)
  {
    if !g.bird.tongue.active then g
    else if g.bird.tongue.goingBack then RetractTongue(g, dt)
    else ExtendTongue(g, dt)
  }

  // ---------------------------------------------------------------- beans

  /** A bean the bean stage moves: in play and not held by the tongue. */
  predicate Loose(b: Bean) {
    b.active && !b.caught
  }

  /** The bean after falling for the scaled step `dt` at game speed `speed`. */
  function Dropped(b: Bean, dt: real, speed: real): Bean {
    b.(y := b.y + BeanSpeed * b.speed * dt * speed)
  }

  /** Whether the loose bean `b`, once fallen, touches the living character with its tongue in. */
  predicate Kills(g: Game, dt: real, b: Bean) {
    && Loose(b) && !g.bird.dead && !g.bird.tongue.active
    && Collide(g.bird.x, g.bird.y, BirdSize, BirdSize, b.x, Dropped(b, dt, g.speed).y, BeanSize, BeanSize)
  }

  /** Whether the loose bean `b`, once fallen, has reached the ledge. */
  predicate Lands(b: Bean, dt: real, speed: real) {
    Loose(b) && Dropped(b, dt, speed).y >= GroundY
  }

  /** No bean in slots `i` up to `j` (exclusive) kills the character this tick. */
  predicate Survives(g: Game, dt: real, i: int, j: int)
    requires |g.beans| == PoolSize
  {
    forall m :: i <= m < j && 0 <= m < PoolSize ==> !Kills(g, dt, g.beans[m])
  }

  /** One pass of the bean loop on slot `i`: a loose bean falls; touching the living character
      with the tongue in kills it and starts the death timer; otherwise reaching the ledge
      knocks out the block of its column and frees the slot. */
  function FallOne(g: Game, dt: real, i: nat): (r: Game)
    requires |g.beans| == PoolSize && |g.blocks| == Width && i < PoolSize
    ensures r == g.(beans := r.beans, blocks := r.blocks, deathTimer := r.deathTimer,
                    bird := g.bird.(dead := r.bird.dead))
    ensures |r.beans| == PoolSize && |r.blocks| == Width
    ensures forall j :: 0 <= j < PoolSize && j != i ==> r.beans[j] == g.beans[j]
    ensures !Loose(g.beans[i]) ==> r == g
    ensures r.bird.dead != g.bird.dead <==> Kills(g, dt, g.beans[i])
    ensures Kills(g, dt, g.beans[i]) ==>
      && r.bird.dead && r.deathTimer == DeathDelay
      && r.beans[i] == Dropped(g.beans[i], dt, g.speed) && r.blocks == g.blocks
    ensures Loose(g.beans[i]) && !Kills(g, dt, g.beans[i]) ==> r.deathTimer == g.deathTimer
    ensures Loose(g.beans[i]) && !Kills(g, dt, g.beans[i]) && !Lands(g.beans[i], dt, g.speed) ==>
      r.beans[i] == Dropped(g.beans[i], dt, g.speed) && r.blocks == g.blocks
    ensures var c := Trunc(g.beans[i].x);
      !Kills(g, dt, g.beans[i]) && Lands(g.beans[i], dt, g.speed) ==>
        && r.beans[i] == Dropped(g.beans[i], dt, g.speed).(active := false)
        && (forall j :: 0 <= j < Width && j != c ==> r.blocks[j] == g.blocks[j])
        && (0 <= c < Width ==> r.blocks[c] == g.blocks[c].(present := false))
  {
    var b := g.beans[i];
    if !Loose(b) then g
    else
      var b1 := Dropped(b, dt, g.speed);
      var g1 := g.(beans := g.beans[i := b1]);
      if !g.bird.dead && !g.bird.tongue.active
         && Collide(g.bird.x, g.bird.y, BirdSize, BirdSize, b1.x, b1.y, BeanSize, BeanSize)
      then
        g1.(bird := g1.bird.(dead := true), deathTimer := DeathDelay)
      else if b1.y >= GroundY then
        var c := Trunc(b1.x);
        var blocks := if 0 <= c < Width && g.blocks[c].present then g.blocks[c := g.blocks[c].(present := false)]
                      else g.blocks;
        g1.(blocks := blocks, beans := g1.beans[i := b1.(active := false)])
      else g1
  }

  /** Bean stage from slot `i` on: every slot is passed in order until a bean kills the
      character, after which no further bean is processed this tick. */
  function FallFrom(g: Game, dt: real, i: nat): (r: Game)
    requires |g.beans| == PoolSize && |g.blocks| == Width && i <= PoolSize
    decreases PoolSize - i
    ensures r == g.(beans := r.beans, blocks := r.blocks, deathTimer := r.deathTimer,
                    bird := g.bird.(dead := r.bird.dead))
    ensures |r.beans| == PoolSize && |r.blocks| == Width
    ensures forall j :: 0 <= j < Width ==>
              r.blocks[j].repairing == g.blocks[j].repairing && (r.blocks[j].present ==> g.blocks[j].present)
    ensures r.bird.dead != g.bird.dead ==> !g.bird.tongue.active && r.bird.dead && r.deathTimer == DeathDelay
    ensures r.bird.dead == g.bird.dead ==> r.deathTimer == g.deathTimer
    ensures Survives(g, dt, i, PoolSize) ==> r.bird.dead == g.bird.dead
    ensures forall j :: 0 <= j < i ==> r.beans[j] == g.beans[j]
  {
    if i == PoolSize then g
    else
      var g1 := FallOne(g, dt, i);
      if Kills(g, dt, g.beans[i]) then g1
      else
        assert g1.bird == g.bird && g1.speed == g.speed;
        assert forall j :: i < j < PoolSize ==> g1.beans[j] == g.beans[j];
        FallFrom(g1, dt, i + 1)
  }

  /** What the bean stage does to slot `j`, given that no earlier slot killed the character: an
      idle or held bean is left alone; a bean that touches the character kills it, starts the
      death timer and ends the stage with every later slot untouched; a bean that reaches the
      ledge leaves the pool and its column's block is gone; any other loose bean falls. */
  lemma {:induction false} FallFromSlot(g: Game, dt: real, i: nat, j: nat)
    requires |g.beans| == PoolSize && |g.blocks| == Width && i <= j < PoolSize
    requires Survives(g, dt, i, j)
    decreases j - i
    ensures var r := FallFrom(g, dt, i); var b := g.beans[j];
      && (!Loose(b) ==> r.beans[j] == b)
      && (Kills(g, dt, b) ==>
            && r.bird.dead && r.deathTimer == DeathDelay && r.beans[j] == Dropped(b, dt, g.speed)
            && forall m :: j < m < PoolSize ==> r.beans[m] == g.beans[m])
      && (Loose(b) && !Kills(g, dt, b) && !Lands(b, dt, g.speed) ==> r.beans[j] == Dropped(b, dt, g.speed))
      && (!Kills(g, dt, b) && Lands(b, dt, g.speed) ==>
            && r.beans[j] == Dropped(b, dt, g.speed).(active := false)
            && (0 <= Trunc(b.x) < Width ==> !r.blocks[Trunc(g.beans[j].x)].present))
  {
    var g1 := FallOne(g, dt, i);
    if j == i {
      if !Kills(g, dt, g.beans[i]) {
        assert FallFrom(g, dt, i) == FallFrom(g1, dt, i + 1);
      }
    } else {
      assert !Kills(g, dt, g.beans[i]);
      assert g1.bird == g.bird && g1.speed == g.speed && g1.beans[j] == g.beans[j];
      assert forall m :: i < m < PoolSize ==> g1.beans[m] == g.beans[m];
      assert Survives(g1, dt, i + 1, j);
      FallFromSlot(g1, dt, i + 1, j);
    }
  }

  /** The bean stage keeps the repair invariant: it never rebuilds a block nor touches a repair
      mark or the angel. */
  lemma FallKeepsRepair(g: Game, dt: real)
    requires |g.beans| == PoolSize && |g.blocks| == Width
    requires RepairConsistent(g.blocks, g.angel)
    ensures RepairConsistent(FallFrom(g, dt, 0).blocks, FallFrom(g, dt, 0).angel)
  {
    var r := FallFrom(g, dt, 0);
    forall i | 0 <= i < Width && r.blocks[i].repairing
      ensures !r.blocks[i].present
    {
      assert g.blocks[i].repairing;
    }
  }

  // ---------------------------------------------------------------- angel

  /** Angel stage: a descending angel that reaches the ledge rebuilds its target block, clears
      the repair mark and turns back up; an ascending angel leaving the top of the grid is gone. */
  function UpdateAngel(g: Game, dt: real): (r: Game)
    requires |g.blocks| == Width
    ensures r == g.(blocks := r.blocks, angel := r.angel)
    ensures |r.blocks| == Width
    ensures forall j :: 0 <= j < Width && j != g.angel.target ==> r.blocks[j] == g.blocks[j]
    ensures (g.angel.active && !g.angel.goingUp && r.angel.goingUp && 0 <= g.angel.target < Width)
            ==> r.blocks[g.angel.target] == Block(true, false)
    ensures !g.angel.active ==> r == g
    ensures var a := g.angel; var y := a.y + AngelSpeed * dt;
      a.active && !a.goingUp ==>
        && r.angel == a.(y := y, goingUp := y >= GroundY)
        && (y < GroundY ==> r.blocks == g.blocks)
        && (y >= GroundY && 0 <= a.target < Width ==> r.blocks[a.target] == Block(true, false))
    ensures var a := g.angel; var y := a.y - AngelSpeed * dt;
      a.active && a.goingUp ==> r.angel == a.(y := y, active := y >= 0.0) && r.blocks == g.blocks
    ensures RepairConsistent(g.blocks, g.angel) ==> RepairConsistent(r.blocks, r.angel)
  {
    var a := g.angel;
    if !a.active then g
    else if !a.goingUp then
      var a1 := a.(y := a.y + AngelSpeed * dt);
      if a1.y >= GroundY then
        var blocks := if 0 <= a.target < Width then g.blocks[a.target := Block(true, false)] else g.blocks;
        g.(blocks := blocks, angel := a1.(goingUp := true))
      else g.(angel := a1)
    else
      var a1 := a.(y := a.y - AngelSpeed * dt);
      g.(angel := if a1.y < 0.0 then a1.(active := false) else a1)
  }

  // ---------------------------------------------------------------- spawning, background

  /** Spawner stage: the timer accumulates scaled time and, once it reaches a threshold that
      shrinks as the game speeds up, a bean is spawned and the timer restarts. */
  function SpawnTick(g: Game, dt: real, roll: Roll): (r: Game)
    requires g.speed > 0.0
    ensures r == g.(beans := r.beans, spawnTimer := r.spawnTimer)
    ensures |r.beans| == |g.beans|
    ensures r.spawnTimer == 0.0 || r.spawnTimer == g.spawnTimer + dt
    ensures g.spawnTimer + dt < SpawnFrequency / g.speed ==>
      r.beans == g.beans && r.spawnTimer == g.spawnTimer + dt
    ensures var k := FreeSlot(g.beans);
      g.spawnTimer + dt >= SpawnFrequency / g.speed ==>
        && r.spawnTimer == 0.0
        && (0 <= k ==> r.beans[k] == NewBean(g.blocks, roll))
        && forall j :: 0 <= j < |g.beans| && j != k ==> r.beans[j] == g.beans[j]
  {
    var timer := g.spawnTimer + dt;
    if timer >= SpawnFrequency / g.speed then g.(beans := SpawnBean(g.beans, g.blocks, roll), spawnTimer := 0.0)
    else g.(spawnTimer := timer)
  }

  /** Index of the background image: one step per 40 points, capped at the last of 21 images. */
  function BackgroundIndex(score: int): (k: int)
    requires score >= 0
    ensures 0 <= k <= LastBackground
    ensures k < LastBackground ==> k * ScorePerBackground <= score < (k + 1) * ScorePerBackground
    ensures k == LastBackground <==> score >= LastBackground * ScorePerBackground
  {
    var k := score / ScorePerBackground;
    if k >= LastBackground + 1 then LastBackground else k
  }

  // ---------------------------------------------------------------- the tick

  /** While the character is dead a tick only counts the death timer down; when it runs out the
      score is recorded in the top-10 table, remembered as the last score, and the game is over. */
  function DeathTick(w: Session, delta: real): (r: Session)
    requires Valid(w)
    ensures Valid(r)
    ensures r.game == w.game.(deathTimer := w.game.deathTimer - delta, phase := r.game.phase)
    ensures r.queue == w.queue && r.background == w.background
    ensures w.game.deathTimer - delta <= 0.0 ==>
      r.game.phase == GameOver && r.highScores == HighScores.Insert(w.highScores, w.game.score)
      && r.lastScore == w.game.score
    ensures w.game.deathTimer - delta > 0.0 ==> r == w.(game := r.game) && r.game.phase == w.game.phase
  {
    var timer := w.game.deathTimer - delta;
    HighScores.InsertKeepsRanked(w.highScores, w.game.score);
    if timer <= 0.0 then
      w.(game := w.game.(deathTimer := timer, phase := GameOver),
         lastScore := w.game.score,
         highScores := HighScores.Insert(w.highScores, w.game.score))
    else w.(game := w.game.(deathTimer := timer))
  }

  /** The entity stages of a living tick, after the drain: tongue, beans, angel, spawner. The
      character only changes through its tongue and death flag, and the score only grows. */
  function Physics(g: Game, dt: real, roll: Roll): (r: Game)
    requires GameOk(g)
    ensures GameOk(r)
    ensures r.bird.x == g.bird.x && r.bird.facing == g.bird.facing
    ensures r.phase == g.phase && r.speed == g.speed
    ensures r.score >= g.score
    ensures var t := g.bird.tongue;
      r.score == g.score + (if t.active && t.goingBack && t.caughtBean && HeldSlot(g.beans) >= 0
                               && t.y + TongueSpeed * 2.0 * dt >= BirdY then 10 else 0)
  {
    var g3 := UpdateTongue(g, dt);
    assert GameOk(g3);
    var g4 := FallFrom(g3, dt, 0);
    FallKeepsRepair(g3, dt);
    assert GameOk(g4);
    var g5 := UpdateAngel(g4, dt);
    assert GameOk(g5);
    SpawnTick(g5, dt, roll)
  }

  /** A pink bean brought back to the character, with a block destroyed and no angel about,
      sends the angel to the first destroyed block in the same tick: the angel has already
      descended for one step, and its target is under repair until the angel reaches the ledge,
      where the block stands again. */
  lemma PhysicsLaunchesAngel(g: Game, dt: real, roll: Roll)
    requires GameOk(g) && dt > 0.0
    requires var t := g.bird.tongue; var k := HeldSlot(g.beans);
      && t.active && t.goingBack && t.caughtBean && t.y + TongueSpeed * 2.0 * dt >= BirdY
      && 0 <= k && g.beans[k].color == Pink
    requires FindDestroyedBlock(g.blocks) >= 0 && !g.angel.active
    ensures var r := Physics(g, dt, roll); var d := FindDestroyedBlock(g.blocks);
      && r.angel.active && r.angel.target == d && r.angel.x == d as real + 0.5 && r.angel.y == AngelSpeed * dt
      && (AngelSpeed * dt < GroundY ==> !r.angel.goingUp && r.blocks[d] == Block(false, true))
      && (AngelSpeed * dt >= GroundY ==> r.angel.goingUp && r.blocks[d] == Block(true, false))
  {
    var d := FindDestroyedBlock(g.blocks);
    var g3 := UpdateTongue(g, dt);
    assert g3 == RetractTongue(g, dt);
    assert g3.angel == Angel(true, d as real + 0.5, 0.0, d, false) && g3.blocks[d] == Block(false, true);
    var g4 := FallFrom(g3, dt, 0);
    FallKeepsRepair(g3, dt);
    assert g4.angel == g3.angel && g4.blocks[d] == Block(false, true);
    var g5 := UpdateAngel(g4, dt);
    assert Physics(g, dt, roll) == SpawnTick(g5, dt, roll);
  }

  /** The movement half of a living tick, for the scaled time step `dt`: the speed ramps up and
      the step queue is drained. */
  function Advance(w: Session, dt: real): (r: Session)
    requires Valid(w)
    requires dt > 0.0
    ensures Valid(r)
    ensures r.game == w.game.(speed := r.game.speed, bird := w.game.bird.(x := r.game.bird.x))
    ensures r.game.speed > w.game.speed
    ensures r.highScores == w.highScores && r.lastScore == w.lastScore && r.background == w.background
  {
    DrainQueue(w.(game := w.game.(speed := w.game.speed + dt * SpeedAcceleration)))
  }

  /** The living tick: speed ramp and drain, then the entity stages and the background, in the
      source's order, on the speed-scaled time step. */
  function LiveTick(w: Session, delta: real, roll: Roll): (r: Session)
    requires Valid(w)
    requires delta > 0.0
    ensures Valid(r)
    ensures r.game.score >= w.game.score
    ensures r.game.phase == w.game.phase && r.highScores == w.highScores && r.lastScore == w.lastScore
    ensures r.game.speed > w.game.speed
  {
    var dt := Scaled(delta, w.game.speed);
    var w2 := Advance(w, dt);
    var g6 := Physics(w2.game, dt, roll);
    w2.(game := g6, background := BackgroundIndex(g6.score))
  }

  /** `update_game`: nothing happens outside play or while paused; a dead character only counts
      down; otherwise one living tick. */
  function UpdateGame(w: Session, delta: real, roll: Roll): (r: Session)
    requires Valid(w)
    requires delta > 0.0
    ensures Valid(r)
    ensures w.game.phase != Playing || w.game.paused ==> r == w
    ensures r.game.score >= w.game.score
    ensures r.game.phase == w.game.phase || (w.game.phase == Playing && r.game.phase == GameOver)
    ensures r.game.phase != w.game.phase ==>
      && w.game.bird.dead
      && r.highScores == HighScores.Insert(w.highScores, w.game.score)
      && r.lastScore == w.game.score
    ensures r.game.phase == w.game.phase ==> r.highScores == w.highScores && r.lastScore == w.lastScore
    ensures w.game.phase == Playing && !w.game.paused && w.game.bird.dead ==>
      r.game == w.game.(deathTimer := w.game.deathTimer - delta, phase := r.game.phase) && r.queue == w.queue
  {
    var g := w.game;
    if g.phase != Playing || g.paused then w
    else if g.bird.dead then DeathTick(w, delta)
    else LiveTick(w, delta, roll)
  }
}
