/** The play field shared by both variants of the game: a 20 by 20 grid of logical units with one
    block per column along the ledge, the C `(int)` cast the game uses to find a column, the
    axis-aligned box test, the clamped and hole-checked horizontal move, and the catch award. */
module Arena {

  const Width: int := 20
  const Height: int := 20
  const BeanSize: real := 2.0
  const TongueWidth: real := 2.0
  const TongueSpeed: real := 15.0
  const BeanSpeed: real := 1.8
  const SpawnFrequency: real := 2.0
  const SpeedAcceleration: real := 0.01
  const DeathDelay: real := 1.0
  const PoolSize: int := 5

  /** Height the character stands at: GAME_HEIGHT - 2. */
  const BirdY: real := 18.0
  /** Height at which a falling bean (or the descending angel) reaches the ledge: GAME_HEIGHT - 1. */
  const GroundY: real := 19.0

  datatype Phase = Menu | Playing | GameOver

  /** The tongue embedded in the character: tip position, the facing it was shot with, whether
      it is on its way back and whether it holds a bean. */
  datatype Tongue = Tongue(active: bool, x: real, y: real, dir: int, goingBack: bool, caughtBean: bool)

  const Retracted: Tongue := Tongue(false, 0.0, 0.0, 1, false, false)

  /** C's `(int)` conversion of a float: truncation toward zero. */
  function Trunc(r: real): (n: int)
    ensures 0.0 <= r ==> n as real <= r < n as real + 1.0
    ensures r < 0.0 ==> n as real - 1.0 < r <= n as real
  {
    if r >= 0.0 then r.Floor else -((-r).Floor)
  }

  function Abs(r: real): real {
    if r < 0.0 then -r else r
  }

  /** `check_collision`: the boxes of widths w1, w2 and heights h1, h2 centred on (x1, y1) and
      (x2, y2) overlap with positive area; boxes whose edges only touch do not collide. */
  function Collide(x1: real, y1: real, w1: real, h1: real,
                   x2: real, y2: real, w2: real, h2: real): (hit: bool)
    ensures hit <==> 2.0 * Abs(x1 - x2) < w1 + w2 && 2.0 * Abs(y1 - y2) < h1 + h2
  {
    && x1 - w1 / 2.0 < x2 + w2 / 2.0
    && x1 + w1 / 2.0 > x2 - w2 / 2.0
    && y1 - h1 / 2.0 < y2 + h2 / 2.0
    && y1 + h1 / 2.0 > y2 - h2 / 2.0
  }

  /** The box test does not depend on which box is given first. */
  lemma CollideSymmetric(x1: real, y1: real, w1: real, h1: real,
                         x2: real, y2: real, w2: real, h2: real)
    ensures Collide(x1, y1, w1, h1, x2, y2, w2, h2) == Collide(x2, y2, w2, h2, x1, y1, w1, h1)
  {
  }

  /** Boxes separated on either axis, touching edges included, never collide. */
  lemma SeparatedBoxesMiss(x1: real, y1: real, w1: real, h1: real,
                           x2: real, y2: real, w2: real, h2: real)
    requires || x1 + w1 / 2.0 <= x2 - w2 / 2.0 || x2 + w2 / 2.0 <= x1 - w1 / 2.0
             || y1 + h1 / 2.0 <= y2 - h2 / 2.0 || y2 + h2 / 2.0 <= y1 - h1 / 2.0
    ensures !Collide(x1, y1, w1, h1, x2, y2, w2, h2)
  {
  }

  /** The time step a living tick works with: the real time step scaled by the game speed, so
      everything moves faster as the game speeds up. */
  function Scaled(delta: real, speed: real): (dt: real)
    requires delta > 0.0 && speed >= 1.0
    ensures dt >= delta > 0.0
    ensures dt / delta == speed
  {
    delta * speed
  }

  /** Points awarded for a catch, from the height of the tongue tip when retraction completes:
      the top fifth of the grid pays 1000, then 300, 100, 50, and 10 below four fifths. */
  function CatchAward(tipY: real): (award: int)
    ensures award in {1000, 300, 100, 50, 10}
    ensures award == 1000 <==> tipY < 4.0
    ensures award == 300 <==> 4.0 <= tipY < 8.0
    ensures award == 100 <==> 8.0 <= tipY < 12.0
    ensures award == 50 <==> 12.0 <= tipY < 16.0
    ensures award == 10 <==> tipY >= 16.0
  {
    if tipY < Height as real * 0.2 then 1000
    else if tipY < Height as real * 0.4 then 300
    else if tipY < Height as real * 0.6 then 100
    else if tipY < Height as real * 0.8 then 50
    else 10
  }

  /** A catch completed higher up (smaller y) never pays less. */
  lemma CatchAwardNonIncreasing(y1: real, y2: real)
    requires y1 <= y2
    ensures CatchAward(y1) >= CatchAward(y2)
  {
  }

  /** The award tiers at one tenth, half and nine tenths of the grid height. */
  lemma CatchAwardSamples()
    ensures CatchAward(0.1 * Height as real) == 1000
    ensures CatchAward(0.5 * Height as real) == 100
    ensures CatchAward(0.9 * Height as real) == 10
  {
  }

  /** The for-loop of the hole check: every column from `lo` to `hi` that lies on the grid holds
      a block; columns left of the grid are skipped and the scan stops at the right edge. */
  function ColumnsSolid(solid: seq<bool>, lo: int, hi: int): (ok: bool)
    requires |solid| == Width
    decreases hi - lo
    ensures ok <==> forall i :: lo <= i <= hi && 0 <= i < Width ==> solid[i]
  {
    if lo > hi || lo >= Width then true
    else if 0 <= lo && !solid[lo] then false
    else ColumnsSolid(solid, lo + 1, hi)
  }

  /** Candidate centre clamped to the stage for a character of half-width `half`. */
  function Clamp(nx: real, half: real): (c: real)
    requires 0.0 <= half <= Width as real / 2.0
    ensures half <= c <= Width as real - half
    ensures half <= nx <= Width as real - half ==> c == nx
    ensures nx < half ==> c == half
    ensures nx > Width as real - half ==> c == Width as real - half
  {
    if nx < half then half
    else if nx > Width as real - half then Width as real - half
    else nx
  }

  /** Whether a point lies beyond the left, right or top edge of the grid; the tongue turns back
      there. */
  predicate OffGrid(x: real, y: real) {
    x < 0.0 || x > Width as real || y < 0.0
  }

  /** Outcome of one attempted horizontal move. */
  datatype Move = Move(moved: bool, x: real)

  /** Move the character of half-width `half` from `x` toward `nx`: the target is clamped to the
      stage, and the move is refused when a column under the character's footprint at the clamped
      position has no block. */
  function TryMove(x: real, nx: real, half: real, solid: seq<bool>): (m: Move)
    requires |solid| == Width
    requires 0.0 <= half <= Width as real / 2.0
    ensures m.moved ==> m.x == Clamp(nx, half) && half <= m.x <= Width as real - half
    ensures !m.moved ==> m.x == x
    ensures m.moved <==>
      forall i :: (Clamp(nx, half) - half).Floor <= i <= (Clamp(nx, half) + half).Floor && 0 <= i < Width
        ==> solid[i]
  {
    var c := Clamp(nx, half);
    if ColumnsSolid(solid, Trunc(c - half), Trunc(c + half)) then Move(true, c) else Move(false, x)
  }
}
