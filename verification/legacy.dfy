/** The legacy variant of the game: no repair angel, no pink beans and no top-10 table. The
    character is three units wide and walks continuously while a movement button was pressed
    within the last nine ticks; a frame counter and the tick of the last press live beside the
    game record. A tick is the same ordered pipeline as in the richer variant, with a walking
    stage in place of the step queue. */
module Legacy {
  import opened Arena
  import opened Scan

  /** Collision size of the character and width of its footprint on the ledge (PYORO_SIZE 3). */
  const BirdSize: real := 3.0
  const BirdHalf: real := 1.5
  /** Walking speed in grid units per second of scaled time (PYORO_SPEED). */
  const WalkSpeed: real := 25.0
  /** A movement button counts as released once more than this many ticks passed since its last
      press (about 150 ms at 60 ticks per second). */
  const ReleaseFrames: int := 9
  /** Offset of the tongue's starting point beyond the character's edge. */
  const MouthOffset: real := 0.6

  /** The character: position, facing (-1 left, 1 right), whether it is walking, whether it was
      hit, and its tongue. */
  datatype Bird = Bird(x: real, y: real, facing: int, moving: bool, dead: bool, tongue: Tongue)

  /** A bean slot of the fixed pool; `speed` is the per-bean fall multiplier. */
  datatype Bean = Bean(x: real, y: real, speed: real, active: bool, caught: bool)

  /** The game record; `blocks[i]` says whether the ledge block of column i stands. */
  datatype Game = Game(
    phase: Phase,
    bird: Bird,
    beans: seq<Bean>,
    blocks: seq<bool>,
    score: int,
    speed: real,
    spawnTimer: real,
    deathTimer: real,
    paused: bool)

  /** The game record with the two counters kept beside it: the number of living ticks so far
      and the tick of the last movement press. Neither is reset by a new game. */
  datatype Session = Session(game: Game, frame: nat, lastPress: nat)

  /** The two `rand()` results one bean spawn consumes: its column and its speed percentage. */
  datatype Draw = Draw(column: nat, speed: nat)

  const IdleBean: Bean := Bean(0.0, 0.0, 0.0, false, false)

  /** `init_game`: the character centred, facing right and standing still, every block standing,
      every bean slot free, score 0, speed 1, in the menu. */
  function InitGame(): (g: Game)
    ensures g.phase == Menu && g.score == 0 && g.speed == 1.0
    ensures g.spawnTimer == 0.0 && g.deathTimer == 0.0 && !g.paused
    ensures g.bird.x == 10.0 && g.bird.y == BirdY && g.bird.facing == 1
    ensures !g.bird.moving && !g.bird.dead && !g.bird.tongue.active
    ensures |g.beans| == PoolSize && forall i :: 0 <= i < PoolSize ==> !g.beans[i].active
    ensures |g.blocks| == Width && forall i :: 0 <= i < Width ==> g.blocks[i]
  {
    Game(
      Menu,
      Bird(Width as real / 2.0, Height as real - 2.0, 1, false, false, Retracted),
      [IdleBean, IdleBean, IdleBean, IdleBean, IdleBean],
      seq(Width, _ => true),
      0, 1.0, 0.0, 0.0, false)
  }

  function InitialSession(): Session {
    Session(InitGame(), 0, 0)
  }

  /** `reset_game`: a fresh game that is already being played; the counters carry over. */
  function Reset(w: Session): (r: Session)
    ensures r.game == InitGame().(phase := Playing)
    ensures r.frame == w.frame && r.lastPress == w.lastPress
  {
    w.(game := InitGame().(phase := Playing))
  }

  /** The invariant of the game record: sizes, a facing, the character standing on the ledge
      within the stage, and a walking character never has its tongue out. */
  predicate GameOk(g: Game) {
    && |g.beans| == PoolSize
    && |g.blocks| == Width
    && g.bird.facing in {-1, 1}
    && g.bird.y == BirdY
    && BirdHalf <= g.bird.x <= Width as real - BirdHalf
    && (g.bird.moving ==> !g.bird.tongue.active)
    && g.score >= 0
    && g.speed >= 1.0
  }

  /** The invariant every reachable session satisfies: the character only walks within the
      release window of the last press. */
  predicate Valid(w: Session) {
    && GameOk(w.game)
    && w.lastPress <= w.frame
    && (w.game.bird.moving ==> w.frame - w.lastPress <= ReleaseFrames)
  }

  /** Start-up and every reset from a valid session produce a valid session. */
  lemma InitialValid(w: Session)
    requires Valid(w)
    ensures Valid(InitialSession())
    ensures Valid(Reset(w))
  {
  }

  // ---------------------------------------------------------------- spawning

  /** The lowest free slot of the bean pool, or -1 when all five beans are in play. */
  function FreeSlot(beans: seq<Bean>): (k: int)
    ensures -1 <= k < |beans|
    ensures 0 <= k ==> !beans[k].active
    ensures forall j :: 0 <= j < |beans| && (k < 0 || j < k) ==> beans[j].active
  {
    FirstWhere(beans, (b: Bean) => !b.active)
  }

  /** The bean the draw produces: at the top of column `column % 20`, with speed multiplier
      `(speed % 100) / 100 + 0.5`. */
  function NewBean(d: Draw): (b: Bean)
    ensures b.active && !b.caught && b.y == 0.0
    ensures 0.5 <= b.x <= Width as real - 0.5 && Trunc(b.x) == (d.column % Width)
    ensures b.x == Trunc(b.x) as real + 0.5
    ensures 0.5 <= b.speed < 1.5
  {
    Bean((d.column % Width) as real + 0.5, 0.0, (d.speed % 100) as real / 100.0 + 0.5, true, false)
  }

  /** `spawn_bean`: claim the lowest free slot for a new bean; with every slot busy the spawn is
      dropped. */
  function SpawnBean(beans: seq<Bean>, d: Draw): (r: seq<Bean>)
    ensures |r| == |beans|
    ensures FreeSlot(beans) < 0 ==> r == beans
    ensures var k := FreeSlot(beans);
      0 <= k ==> r[k] == NewBean(d) && forall j :: 0 <= j < |beans| && j != k ==> r[j] == beans[j]
  {
    var k := FreeSlot(beans);
    if k < 0 then beans else beans[k := NewBean(d)]
  }

  // ---------------------------------------------------------------- walking

  /** Where a walking character heads this tick: `WalkSpeed * dt` along its facing. */
  function Target(b: Bird, dt: real): real {
    b.x + b.facing as real * WalkSpeed * dt
  }

  /** The clamped position a walking character tries to reach this tick: `WalkSpeed * dt` ahead
      of it in the facing direction, held back at either edge of the stage. */
  function Stride(b: Bird, dt: real): (c: real)
    ensures BirdHalf <= c <= Width as real - BirdHalf
    ensures var nx := b.x + b.facing as real * WalkSpeed * dt;
      && (BirdHalf <= nx <= Width as real - BirdHalf ==> c == nx)
      && (nx < BirdHalf ==> c == BirdHalf)
      && (nx > Width as real - BirdHalf ==> c == Width as real - BirdHalf)
  {
    Clamp(Target(b, dt), BirdHalf)
  }

  /** Every column under the character's footprint centred at `c` holds a block. */
  predicate FootprintSolid(blocks: seq<bool>, c: real)
    requires |blocks| == Width
  {
    forall i :: (c - BirdHalf).Floor <= i <= (c + BirdHalf).Floor && 0 <= i < Width ==> blocks[i]
  }

  /** Walking stage: a walking character with the tongue in moves toward its target, clamped to
      [1.5, 18.5], unless the footprint there has a hole; only its x changes. */
  function Walk(g: Game, dt: real): (r: Game)
    requires GameOk(g)
    ensures GameOk(r)
    ensures r == g.(bird := g.bird.(x := r.bird.x))
    ensures !g.bird.moving ==> r == g
    ensures g.bird.moving && FootprintSolid(g.blocks, Stride(g.bird, dt)) ==> r.bird.x == Stride(g.bird, dt)
    ensures g.bird.moving && !FootprintSolid(g.blocks, Stride(g.bird, dt)) ==> r.bird.x == g.bird.x
  {
    if g.bird.moving && !g.bird.tongue.active then
      var m := TryMove(g.bird.x, Target(g.bird, dt), BirdHalf, g.blocks);
      g.(bird := g.bird.(x := m.x))
    else g
  }

  // ---------------------------------------------------------------- tongue

  /** The first bean that is active and held by the tongue, or -1. */
  function HeldSlot(beans: seq<Bean>): (k: int)
    ensures -1 <= k < |beans|
    ensures 0 <= k ==> beans[k].active && beans[k].caught
    ensures forall j :: 0 <= j < |beans| && (k < 0 || j < k) ==> !(beans[j].active && beans[j].caught)
  {
    FirstWhere(beans, (b: Bean) => b.active && b.caught)
  }

  /** The first active, free bean whose box overlaps the tongue tip's box at (tx, ty), or -1. */
  function HitSlot(beans: seq<Bean>, tx: real, ty: real): (k: int)
    ensures -1 <= k < |beans|
    ensures 0 <= k ==> beans[k].active && !beans[k].caught
                       && Collide(tx, ty, TongueWidth, TongueWidth, beans[k].x, beans[k].y, BeanSize, BeanSize)
    ensures forall j :: 0 <= j < |beans| && (k < 0 || j < k) ==>
      !(beans[j].active && !beans[j].caught
        && Collide(tx, ty, TongueWidth, TongueWidth, beans[j].x, beans[j].y, BeanSize, BeanSize))
  {
    FirstWhere(beans, (b: Bean) => b.active && !b.caught
                                   && Collide(tx, ty, TongueWidth, TongueWidth, b.x, b.y, BeanSize, BeanSize))
  }

  /** Extending tongue: the tip moves up and along its direction; the first free bean it touches
      is caught and the tongue turns back; leaving the grid also turns it back. */
  function ExtendTongue(g: Game, dt: real): (r: Game)
    requires |g.beans| == PoolSize
    ensures r == g.(beans := r.beans, bird := g.bird.(tongue := r.bird.tongue))
    ensures |r.beans| == PoolSize
    ensures r.bird.tongue.active == g.bird.tongue.active && r.bird.tongue.dir == g.bird.tongue.dir
    ensures forall j :: 0 <= j < PoolSize ==> r.beans[j].active == g.beans[j].active
    ensures r.bird.tongue.caughtBean != g.bird.tongue.caughtBean ==> r.bird.tongue.goingBack
    ensures var t := g.bird.tongue;
      var tx := t.x + t.dir as real * (TongueSpeed * dt); var ty := t.y - TongueSpeed * dt;
      var k := HitSlot(g.beans, tx, ty);
      && r.bird.tongue.x == tx && r.bird.tongue.y == ty
      && (0 <= k ==> r.beans == g.beans[k := g.beans[k].(caught := true)] && r.bird.tongue.caughtBean)
      && (k < 0 ==> r.beans == g.beans && r.bird.tongue.caughtBean == t.caughtBean)
      && (r.bird.tongue.goingBack <==> t.goingBack || 0 <= k || OffGrid(tx, ty))
  {
    var t := g.bird.tongue;
    var tx := t.x + t.dir as real * (TongueSpeed * dt);
    var ty := t.y - TongueSpeed * dt;
    var k := HitSlot(g.beans, tx, ty);
    var hit := 0 <= k;
    var beans := if hit then g.beans[k := g.beans[k].(caught := true)] else g.beans;
    g.(beans := beans,
       bird := g.bird.(tongue := t.(x := tx, y := ty, caughtBean := t.caughtBean || hit,
                                    goingBack := t.goingBack || hit || OffGrid(tx, ty))))
  }

  /** Retracting tongue: the tip moves back at twice the speed dragging the held bean; once it is
      level with the character a tongue that caught something scores the catch from the tip
      height and the first held bean leaves the pool, and the tongue goes inactive. */
  function RetractTongue(g: Game, dt: real): (r: Game)
    requires |g.beans| == PoolSize
    ensures r == g.(beans := r.beans, score := r.score, bird := g.bird.(tongue := r.bird.tongue))
    ensures |r.beans| == PoolSize
    ensures r.bird.tongue.dir == g.bird.tongue.dir
    ensures r.score != g.score ==> && g.bird.tongue.caughtBean && !r.bird.tongue.active
                                   && r.bird.tongue.y >= g.bird.y
                                   && r.score == g.score + CatchAward(r.bird.tongue.y)
    ensures r.bird.tongue.active ==> r.bird.tongue.y < g.bird.y && r.score == g.score
    ensures var t := g.bird.tongue; var rs := TongueSpeed * 2.0 * dt;
      var tx := t.x - t.dir as real * rs; var ty := t.y + rs; var k := HeldSlot(g.beans);
      && r.bird.tongue == t.(x := tx, y := ty, active := t.active && ty < g.bird.y)
      && (ty < g.bird.y ==> r.score == g.score)
      && (t.caughtBean && 0 <= k ==> r.beans[k] == g.beans[k].(x := tx, y := ty, active := ty < g.bird.y))
      && (forall j :: 0 <= j < PoolSize && (j != k || !t.caughtBean) ==> r.beans[j] == g.beans[j])
      && (ty >= g.bird.y && t.caughtBean ==> r.score == g.score + CatchAward(ty))
      && (!t.caughtBean ==> r.score == g.score)
  {
    var t := g.bird.tongue;
    var rs := TongueSpeed * 2.0 * dt;
    var t1 := t.(x := t.x - t.dir as real * rs, y := t.y + rs);
    var k := HeldSlot(g.beans);
    var beans := if t.caughtBean && 0 <= k then g.beans[k := g.beans[k].(x := t1.x, y := t1.y)] else g.beans;
    if t1.y >= g.bird.y then
      var score := if t.caughtBean then g.score + CatchAward(t1.y) else g.score;
      var beans2 := if t.caughtBean && 0 <= k then beans[k := beans[k].(active := false)] else beans;
      g.(beans := beans2, score := score, bird := g.bird.(tongue := t1.(active := false)))
    else g.(beans := beans, bird := g.bird.(tongue := t1))
  }

  /** Tongue stage. The character stands at height 18, below four fifths of the grid, so every
      completed catch scores exactly 10; the tongue never touches the ledge. */
  function UpdateTongue(g: Game, dt: real): (r: Game)
    requires |g.beans| == PoolSize
    requires g.bird.y == BirdY
    ensures r == g.(beans := r.beans, score := r.score, bird := g.bird.(tongue := r.bird.tongue))
    ensures |r.beans| == PoolSize
    ensures !g.bird.tongue.active ==> r == g
    ensures r.bird.tongue.active ==> g.bird.tongue.active
    ensures || r.score == g.score
            || (r.score == g.score + 10 && g.bird.tongue.goingBack && g.bird.tongue.caughtBean
                && !r.bird.tongue.active)
    ensures var t := g.bird.tongue;
      t.active && t.goingBack && t.y + TongueSpeed * 2.0 * dt >= BirdY ==>
        !r.bird.tongue.active && (r.score == g.score + 10 <==> t.caughtBean)
    ensures var t := g.bird.tongue;
      t.active && (!t.goingBack || t.y + TongueSpeed * 2.0 * dt < BirdY) ==> r.bird.tongue.active && r.score == g.score
  {
    if !g.bird.tongue.active then g
    else if g.bird.tongue.goingBack then RetractTongue(g, dt)
    else ExtendTongue(g, dt)
  }

  // ---------------------------------------------------------------- beans

  /** A bean the bean stage moves: in play and not held by the tongue. */
  predicate Loose(b: Bean) {
    b.active && !b.caught
  }

  /** The bean after falling for the scaled step `dt` at game speed `speed`. */
  function Dropped(b: Bean, dt: real, speed: real): Bean {
    b.(y := b.y + BeanSpeed * b.speed * dt * speed)
  }

  /** Whether the loose bean `b`, once fallen, touches the living three-unit character with its
      tongue in. */
  predicate Kills(g: Game, dt: real, b: Bean) {
    && Loose(b) && !g.bird.dead && !g.bird.tongue.active
    && Collide(g.bird.x, g.bird.y, BirdSize, BirdSize, b.x, Dropped(b, dt, g.speed).y, BeanSize, BeanSize)
  }

  /** Whether the loose bean `b`, once fallen, has reached the ledge. */
  predicate Lands(b: Bean, dt: real, speed: real) {
    Loose(b) && Dropped(b, dt, speed).y >= GroundY
  }

  /** No bean in slots `i` up to `j` (exclusive) kills the character this tick. */
  predicate Survives(g: Game, dt: real, i: int, j: int)
    requires |g.beans| == PoolSize
  {
    forall m :: i <= m < j && 0 <= m < PoolSize ==> !Kills(g, dt, g.beans[m])
  }

  /** One pass of the bean loop on slot `i`: a loose bean falls; touching the living character
      with the tongue in kills it and starts the death timer; otherwise reaching the ledge
      knocks out the block of its column and frees the slot. */
  function FallOne(g: Game, dt: real, i: nat): (r: Game)
    requires |g.beans| == PoolSize && |g.blocks| == Width && i < PoolSize
    ensures r == g.(beans := r.beans, blocks := r.blocks, deathTimer := r.deathTimer,
                    bird := g.bird.(dead := r.bird.dead))
    ensures |r.beans| == PoolSize && |r.blocks| == Width
    ensures forall j :: 0 <= j < PoolSize && j != i ==> r.beans[j] == g.beans[j]
    ensures !Loose(g.beans[i]) ==> r == g
    ensures r.bird.dead != g.bird.dead <==> Kills(g, dt, g.beans[i])
    ensures Kills(g, dt, g.beans[i]) ==>
      && r.bird.dead && r.deathTimer == DeathDelay
      && r.beans[i] == Dropped(g.beans[i], dt, g.speed) && r.blocks == g.blocks
    ensures Loose(g.beans[i]) && !Kills(g, dt, g.beans[i]) ==> r.deathTimer == g.deathTimer
    ensures Loose(g.beans[i]) && !Kills(g, dt, g.beans[i]) && !Lands(g.beans[i], dt, g.speed) ==>
      r.beans[i] == Dropped(g.beans[i], dt, g.speed) && r.blocks == g.blocks
    ensures var c := Trunc(g.beans[i].x);
      !Kills(g, dt, g.beans[i]) && Lands(g.beans[i], dt, g.speed) ==>
        && r.beans[i] == Dropped(g.beans[i], dt, g.speed).(active := false)
        && (forall j :: 0 <= j < Width && j != c ==> r.blocks[j] == g.blocks[j])
        && (0 <= c < Width ==> !r.blocks[c])
  {
    var b := g.beans[i];
    if !Loose(b) then g
    else
      var b1 := Dropped(b, dt, g.speed);
      var g1 := g.(beans := g.beans[i := b1]);
      if !g.bird.dead && !g.bird.tongue.active
         && Collide(g.bird.x, g.bird.y, BirdSize, BirdSize, b1.x, b1.y, BeanSize, BeanSize)
      then
        g1.(bird := g1.bird.(dead := true), deathTimer := DeathDelay)
      else if b1.y >= GroundY then
        var c := Trunc(b1.x);
        var blocks := if 0 <= c < Width then g.blocks[c := false] else g.blocks;
        g1.(blocks := blocks, beans := g1.beans[i := b1.(active := false)])
      else g1
  }

  /** Bean stage from slot `i` on: every slot is passed in order until a bean kills the
      character, after which no further bean is processed this tick. */
  function FallFrom(g: Game, dt: real, i: nat): (r: Game)
    requires |g.beans| == PoolSize && |g.blocks| == Width && i <= PoolSize
    decreases PoolSize - i
    ensures r == g.(beans := r.beans, blocks := r.blocks, deathTimer := r.deathTimer,
                    bird := g.bird.(dead := r.bird.dead))
    ensures |r.beans| == PoolSize && |r.blocks| == Width
    ensures forall j :: 0 <= j < Width && r.blocks[j] ==> g.blocks[j]
    ensures r.bird.dead != g.bird.dead ==> !g.bird.tongue.active && r.bird.dead && r.deathTimer == DeathDelay
    ensures r.bird.dead == g.bird.dead ==> r.deathTimer == g.deathTimer
    ensures Survives(g, dt, i, PoolSize) ==> r.bird.dead == g.bird.dead
    ensures forall j :: 0 <= j < i ==> r.beans[j] == g.beans[j]
  {
    if i == PoolSize then g
    else
      var g1 := FallOne(g, dt, i);
      if Kills(g, dt, g.beans[i]) then g1
      else
        assert g1.bird == g.bird && g1.speed == g.speed;
        assert forall j :: i < j < PoolSize ==> g1.beans[j] == g.beans[j];
        FallFrom(g1, dt, i + 1)
  }

  /** What the bean stage does to slot `j`, given that no earlier slot killed the character: an
      idle or held bean is left alone; a bean that touches the character kills it, starts the
      death timer and ends the stage with every later slot untouched; a bean that reaches the
      ledge leaves the pool and its column's block is gone; any other loose bean falls. */
  lemma {:induction false} FallFromSlot(g: Game, dt: real, i: nat, j: nat)
    requires |g.beans| == PoolSize && |g.blocks| == Width && i <= j < PoolSize
    requires Survives(g, dt, i, j)
    decreases j - i
    ensures var r := FallFrom(g, dt, i); var b := g.beans[j];
      && (!Loose(b) ==> r.beans[j] == b)
      && (Kills(g, dt, b) ==>
            && r.bird.dead && r.deathTimer == DeathDelay && r.beans[j] == Dropped(b, dt, g.speed)
            && forall m :: j < m < PoolSize ==> r.beans[m] == g.beans[m])
      && (Loose(b) && !Kills(g, dt, b) && !Lands(b, dt, g.speed) ==> r.beans[j] == Dropped(b, dt, g.speed))
      && (!Kills(g, dt, b) && Lands(b, dt, g.speed) ==>
            && r.beans[j] == Dropped(b, dt, g.speed).(active := false)
            && (0 <= Trunc(b.x) < Width ==> !r.blocks[Trunc(g.beans[j].x)]))
  {
    var g1 := FallOne(g, dt, i);
    if j == i {
      if !Kills(g, dt, g.beans[i]) {
        assert FallFrom(g, dt, i) == FallFrom(g1, dt, i + 1);
      }
    } else {
      assert !Kills(g, dt, g.beans[i]);
      assert g1.bird == g.bird && g1.speed == g.speed && g1.beans[j] == g.beans[j];
      assert forall m :: i < m < PoolSize ==> g1.beans[m] == g.beans[m];
      assert Survives(g1, dt, i + 1, j);
      FallFromSlot(g1, dt, i + 1, j);
    }
  }

  /** Spawner stage: the timer accumulates scaled time and, once it reaches a threshold that
      shrinks as the game speeds up, a bean is spawned and the timer restarts. */
  function SpawnTick(g: Game, dt: real, d: Draw): (r: Game)
    requires g.speed > 0.0
    ensures r == g.(beans := r.beans, spawnTimer := r.spawnTimer)
    ensures |r.beans| == |g.beans|
    ensures r.spawnTimer == 0.0 || r.spawnTimer == g.spawnTimer + dt
    ensures r.spawnTimer == 0.0 <==> g.spawnTimer + dt >= SpawnFrequency / g.speed || g.spawnTimer + dt == 0.0
    ensures g.spawnTimer + dt < SpawnFrequency / g.speed ==> r.beans == g.beans
    ensures var k := FreeSlot(g.beans);
      g.spawnTimer + dt >= SpawnFrequency / g.speed ==>
        && (0 <= k ==> r.beans[k] == NewBean(d))
        && forall j :: 0 <= j < |g.beans| && j != k ==> r.beans[j] == g.beans[j]
  {
    var timer := g.spawnTimer + dt;
    if timer >= SpawnFrequency / g.speed then g.(beans := SpawnBean(g.beans, d), spawnTimer := 0.0)
    else g.(spawnTimer := timer)
  }

  // ---------------------------------------------------------------- the tick

  /** Release stage: the frame counter advances; the character stops walking when its tongue is
      out or when more than nine ticks passed since the last movement press. */
  function Release(w: Session): (r: Session)
    requires Valid(w)
    ensures Valid(r)
    ensures r.frame == w.frame + 1 && r.lastPress == w.lastPress
    ensures r.game == w.game.(bird := w.game.bird.(moving := r.game.bird.moving))
    ensures r.game.bird.moving <==>
      w.game.bird.moving && !w.game.bird.tongue.active && r.frame - r.lastPress <= ReleaseFrames
  {
    var g := w.game;
    var b1 := if g.bird.tongue.active then g.bird.(moving := false) else g.bird;
    var frame := w.frame + 1;
    var b2 := if b1.moving && frame - w.lastPress > ReleaseFrames then b1.(moving := false) else b1;
    Session(g.(bird := b2), frame, w.lastPress)
  }

  /** The entity stages of a living tick, after walking: tongue, beans, spawner. */
  function Physics(g: Game, dt: real, d: Draw): (r: Game)
    requires GameOk(g)
    ensures GameOk(r)
    ensures r.bird.x == g.bird.x && r.bird.facing == g.bird.facing && r.bird.moving == g.bird.moving
    ensures r.phase == g.phase && r.speed == g.speed
    ensures r.score == g.score || r.score == g.score + 10
    ensures var t := g.bird.tongue;
      r.score == g.score + (if t.active && t.goingBack && t.caughtBean && t.y + TongueSpeed * 2.0 * dt >= BirdY
                            then 10 else 0)
    ensures forall j :: 0 <= j < Width && r.blocks[j] ==> g.blocks[j]
    ensures r.bird.dead != g.bird.dead ==> r.bird.dead && !r.bird.tongue.active && r.deathTimer == DeathDelay
  {
    var g1 := UpdateTongue(g, dt);
    assert GameOk(g1);
    var g2 := FallFrom(g1, dt, 0);
    assert GameOk(g2);
    SpawnTick(g2, dt, d)
  }

  /** The movement half of a living tick, for the scaled time step `dt`: the speed ramps up,
      the release check runs and a walking character takes its stride unless a hole is in the
      way. Only the speed, the frame counter and the character's x and walking flag change. */
  function Advance(w: Session, dt: real): (r: Session)
    requires Valid(w)
    requires dt > 0.0
    ensures Valid(r)
    ensures r.frame == w.frame + 1 && r.lastPress == w.lastPress
    ensures r.game == w.game.(speed := r.game.speed,
                              bird := w.game.bird.(x := r.game.bird.x, moving := r.game.bird.moving))
    ensures r.game.speed > w.game.speed
    ensures r.game.bird.moving ==> w.game.bird.moving
    ensures !w.game.bird.moving ==> r.game.bird.x == w.game.bird.x
    ensures w.game.bird.moving && w.frame + 1 - w.lastPress <= ReleaseFrames ==>
      r.game.bird.x == (if FootprintSolid(w.game.blocks, Stride(w.game.bird, dt))
                        then Stride(w.game.bird, dt) else w.game.bird.x)
  {
    var g := w.game;
    var w1 := w.(game := g.(speed := g.speed + dt * SpeedAcceleration));
    var w2 := Release(w1);
    assert Stride(w2.game.bird, dt) == Stride(g.bird, dt) && w2.game.blocks == g.blocks;
    assert g.bird.moving && w.frame + 1 - w.lastPress <= ReleaseFrames ==> w2.game.bird.moving;
    w2.(game := Walk(w2.game, dt))
  }

  /** The living tick: the movement half, then the entity stages in the source's order, both on
      the speed-scaled time step. */
  function LiveTick(w: Session, delta: real, d: Draw): (r: Session)
    requires Valid(w)
    requires delta > 0.0
    ensures Valid(r)
    ensures r.frame == w.frame + 1 && r.lastPress == w.lastPress
    ensures r.game.phase == w.game.phase && r.game.speed > w.game.speed
    ensures r.game.score == w.game.score || r.game.score == w.game.score + 10
    ensures forall j :: 0 <= j < Width && r.game.blocks[j] ==> w.game.blocks[j]
    ensures r.game.bird.moving ==> w.game.bird.moving
    ensures !w.game.bird.moving ==> r.game.bird.x == w.game.bird.x
    ensures r.game.bird.dead != w.game.bird.dead ==>
      r.game.bird.dead && !r.game.bird.tongue.active && r.game.deathTimer == DeathDelay
    ensures w.game.bird.moving && w.frame + 1 - w.lastPress <= ReleaseFrames ==>
      r.game.bird.x == (if FootprintSolid(w.game.blocks, Stride(w.game.bird, Scaled(delta, w.game.speed)))
                        then Stride(w.game.bird, Scaled(delta, w.game.speed)) else w.game.bird.x)
  {
    var dt := Scaled(delta, w.game.speed);
    var w1 := Advance(w, dt);
    w1.(game := Physics(w1.game, dt, d))
  }

  /** `update_game`: nothing happens outside play or while paused; a dead character only counts
      the death timer down, and the game is over when it runs out (nothing is recorded);
      otherwise one living tick. */
  function UpdateGame(w: Session, delta: real, d: Draw): (r: Session)
    requires Valid(w)
    requires delta > 0.0
    ensures Valid(r)
    ensures w.game.phase != Playing || w.game.paused ==> r == w
    ensures r.game.phase == w.game.phase || (w.game.phase == Playing && r.game.phase == GameOver)
    ensures w.game.phase == Playing && !w.game.paused && w.game.bird.dead ==>
      && r.frame == w.frame && r.lastPress == w.lastPress
      && r.game == w.game.(deathTimer := w.game.deathTimer - delta, phase := r.game.phase)
      && (r.game.phase == GameOver <==> w.game.deathTimer - delta <= 0.0)
    ensures w.game.phase == Playing && !w.game.paused && !w.game.bird.dead ==>
      r.frame == w.frame + 1 && r.game.phase == Playing
    ensures r.lastPress == w.lastPress
    ensures r.game.score == w.game.score || r.game.score == w.game.score + 10
    ensures forall j :: 0 <= j < Width && r.game.blocks[j] ==> w.game.blocks[j]
    ensures r.game.bird.moving ==> w.game.bird.moving
    ensures !w.game.bird.moving ==> r.game.bird.x == w.game.bird.x
    ensures !w.game.bird.dead && r.game.bird.dead ==>
      !r.game.bird.tongue.active && r.game.deathTimer == DeathDelay
    ensures (w.game.phase == Playing && !w.game.paused && !w.game.bird.dead && w.game.bird.moving
             && w.frame + 1 - w.lastPress <= ReleaseFrames) ==>
      r.game.bird.x == (if FootprintSolid(w.game.blocks, Stride(w.game.bird, Scaled(delta, w.game.speed)))
                        then Stride(w.game.bird, Scaled(delta, w.game.speed)) else w.game.bird.x)
  {
    var g := w.game;
    if g.phase != Playing || g.paused then w
    else if g.bird.dead then
      var timer := g.deathTimer - delta;
      w.(game := g.(deathTimer := timer, phase := if timer <= 0.0 then GameOver else g.phase))
    else LiveTick(w, delta, d)
  }
}
