/** The button handlers of the legacy variant and its sessions driven by sequences of button
    presses and timer ticks. Up and down (single or repeating) set the facing and start the
    walk; select starts a game, leaves the game-over screen or shoots the tongue. */
module LegacyControls {
  import opened Arena
  import opened Legacy

  /** Whether movement and tongue buttons are live: in play, alive and the tongue in. */
  predicate Steerable(g: Game) {
    g.phase == Playing && !g.bird.dead && !g.bird.tongue.active
  }

  /** The up (`wanted` = -1) and down (`wanted` = 1) handlers, shared by single and repeating
      clicks: in steerable play the character faces the pressed way, starts walking, and the
      press is stamped with the current frame; otherwise nothing changes. */
  function MovePress(w: Session, wanted: int): (r: Session)
    requires Valid(w)
    requires wanted in {-1, 1}
    ensures Valid(r)
    ensures !Steerable(w.game) ==> r == w
    ensures Steerable(w.game) ==>
      && r.game == w.game.(bird := w.game.bird.(facing := wanted, moving := true))
      && r.frame == w.frame && r.lastPress == w.frame
  {
    var g := w.game;
    if !Steerable(g) then w
    else w.(game := g.(bird := g.bird.(facing := wanted, moving := true)), lastPress := w.frame)
  }

  /** The tongue as the select button shoots it: from just beyond the character on the facing
      side, a little above its centre, heading the way it faces. */
  function ShotTongue(b: Bird): (t: Tongue)
    ensures t.active && !t.goingBack && !t.caughtBean && t.dir == b.facing
    ensures t.x == b.x + (BirdHalf + MouthOffset) * b.facing as real
    ensures b.y == BirdY ==> t.y == 17.1
  {
    Tongue(true, b.x + (BirdHalf + MouthOffset) * b.facing as real, b.y - BirdHalf + MouthOffset,
           b.facing, false, false)
  }

  /** The select handler: from the menu a fresh game starts; from the game-over screen back to
      the menu; in play with a living character and the tongue in, the character stops and the
      tongue is shot; otherwise nothing. */
  function SelectPress(w: Session): (r: Session)
    requires Valid(w)
    ensures Valid(r)
    ensures w.game.phase == Menu ==> r == Reset(w)
    ensures w.game.phase == GameOver ==> r == w.(game := w.game.(phase := Menu))
    ensures Steerable(w.game) ==>
      r == w.(game := w.game.(bird := w.game.bird.(moving := false, tongue := ShotTongue(w.game.bird))))
    ensures w.game.phase == Playing && !Steerable(w.game) ==> r == w
  {
    var g := w.game;
    if g.phase == Menu then
      InitialValid(w);
      Reset(w)
    else if g.phase == GameOver then w.(game := g.(phase := Menu))
    else if !g.bird.dead && !g.bird.tongue.active then
      w.(game := g.(bird := g.bird.(moving := false, tongue := ShotTongue(g.bird))))
    else w
  }

  /** Up and Down stand for both the single and the repeating click of that button. */
  datatype Button = Up | Down | Select

  /** What reaches the game: a button event, or a timer tick with its time step and the random
      draws a spawn on that tick would use. */
  datatype Event = Press(button: Button) | Frame(delta: real, draw: Draw)

  /** Ticks always carry a positive time step. */
  predicate Admissible(e: Event) {
    e.Frame? ==> e.delta > 0.0
  }

  /** One event applied to the session. */
  function Handle(w: Session, e: Event): (r: Session)
    requires Valid(w) && Admissible(e)
    ensures Valid(r)
    ensures || r.game.phase == w.game.phase
            || (w.game.phase == Menu && r.game.phase == Playing)
            || (w.game.phase == Playing && r.game.phase == GameOver)
            || (w.game.phase == GameOver && r.game.phase == Menu)
    ensures w.game.phase == Menu && r.game.phase == Playing ==> e == Press(Select)
    ensures !(w.game.phase == Menu && r.game.phase == Playing) ==>
      && (r.game.score == w.game.score || r.game.score == w.game.score + 10)
      && forall j :: 0 <= j < Width && r.game.blocks[j] ==> w.game.blocks[j]
    ensures e != Press(Up) && e != Press(Down) ==> r.lastPress == w.lastPress
  {
    match e
    case Frame(delta, d) => UpdateGame(w, delta, d)
    case Press(Up) => MovePress(w, -1)
    case Press(Down) => MovePress(w, 1)
    case Press(Select) => SelectPress(w)
  }

  predicate AllAdmissible(es: seq<Event>) {
    forall i :: 0 <= i < |es| ==> Admissible(es[i])
  }

  /** The session after a sequence of events. */
  function Run(w: Session, es: seq<Event>): (r: Session)
    requires Valid(w) && AllAdmissible(es)
    ensures Valid(r)
    decreases |es|
  {
    if |es| == 0 then w else Run(Handle(w, es[0]), es[1..])
  }

  /** Number of events along a run that start a game. */
  function Starts(w: Session, es: seq<Event>): nat
    requires Valid(w) && AllAdmissible(es)
    decreases |es|
  {
    if |es| == 0 then 0
    else
      var w1 := Handle(w, es[0]);
      (if w.game.phase == Menu && w1.game.phase == Playing then 1 else 0) + Starts(w1, es[1..])
  }

  /** Number of blocks standing on the ledge; it is the ledge's length exactly when every block
      stands. */
  function Standing(blocks: seq<bool>): (n: nat)
    ensures n <= |blocks|
    ensures n == |blocks| <==> forall i :: 0 <= i < |blocks| ==> blocks[i]
  {
    if |blocks| == 0 then 0 else (if blocks[0] then 1 else 0) + Standing(blocks[1..])
  }

  /** A ledge whose blocks all stand where they stand in `before` has no more blocks. */
  lemma {:induction false} StandingMonotone(before: seq<bool>, after: seq<bool>)
    requires |before| == |after|
    requires forall j :: 0 <= j < |after| && after[j] ==> before[j]
    ensures Standing(after) <= Standing(before)
    decreases |before|
  {
    if |before| > 0 {
      assert after[0] ==> before[0];
      StandingMonotone(before[1..], after[1..]);
    }
  }

  /** Without a new game the ledge is never rebuilt: a block standing at the end of a run stood
      at its start, so the number of standing blocks never grows. */
  lemma {:induction false} BlocksNeverRebuilt(w: Session, es: seq<Event>)
    requires Valid(w) && AllAdmissible(es)
    requires Starts(w, es) == 0
    ensures forall j :: 0 <= j < Width && Run(w, es).game.blocks[j] ==> w.game.blocks[j]
    ensures Standing(Run(w, es).game.blocks) <= Standing(w.game.blocks)
    decreases |es|
  {
    if |es| > 0 {
      var w1 := Handle(w, es[0]);
      BlocksNeverRebuilt(w1, es[1..]);
    }
    StandingMonotone(w.game.blocks, Run(w, es).game.blocks);
  }

  /** Number of events along a run that raise the score. */
  function Raises(w: Session, es: seq<Event>): (n: nat)
    requires Valid(w) && AllAdmissible(es)
    ensures n <= |es|
    decreases |es|
  {
    if |es| == 0 then 0
    else
      var w1 := Handle(w, es[0]);
      (if w1.game.score > w.game.score then 1 else 0) + Raises(w1, es[1..])
  }

  /** Without a new game the score never decreases and moves only in steps of 10: it is the
      starting score plus 10 for every event that raised it (by CatchScoresTen, each such event is
      a tick that completed a catch). */
  lemma {:induction false} ScoreGrowsInTens(w: Session, es: seq<Event>)
    requires Valid(w) && AllAdmissible(es)
    requires Starts(w, es) == 0
    ensures Run(w, es).game.score == w.game.score + 10 * Raises(w, es)
    decreases |es|
  {
    if |es| > 0 {
      var w1 := Handle(w, es[0]);
      ScoreGrowsInTens(w1, es[1..]);
    }
  }

  /** A released button stops the character: along a run with no movement press the stamp of
      the last press stays put, so once more than nine ticks have passed since it the character
      is standing still. */
  lemma {:induction false} ReleasedButtonStops(w: Session, es: seq<Event>)
    requires Valid(w) && AllAdmissible(es)
    requires forall i :: 0 <= i < |es| ==> es[i] != Press(Up) && es[i] != Press(Down)
    ensures Run(w, es).lastPress == w.lastPress
    ensures Run(w, es).frame > w.lastPress + ReleaseFrames ==> !Run(w, es).game.bird.moving
    decreases |es|
  {
    if |es| > 0 {
      var w1 := Handle(w, es[0]);
      ReleasedButtonStops(w1, es[1..]);
    }
  }

  /** A living tick scores exactly when it brings a returning tongue that caught a bean back to
      the character, and then by exactly 10. */
  lemma CatchScoresTen(w: Session, delta: real, d: Draw)
    requires Valid(w) && w.game.phase == Playing && !w.game.paused && !w.game.bird.dead && delta > 0.0
    ensures var t := w.game.bird.tongue;
      UpdateGame(w, delta, d).game.score
        == w.game.score + (if t.active && t.goingBack && t.caughtBean
                              && t.y + TongueSpeed * 2.0 * Scaled(delta, w.game.speed) >= BirdY then 10 else 0)
  {
    var dt := Scaled(delta, w.game.speed);
    var w1 := Advance(w, dt);
    assert w1.game.bird.tongue == w.game.bird.tongue;
    assert UpdateGame(w, delta, d) == w1.(game := Physics(w1.game, dt, d));
  }

  /** A tick within the release window, on an intact ledge, takes the full clamped stride. */
  lemma TickOnIntactLedgeWalks(w: Session, delta: real, d: Draw)
    requires Valid(w) && w.game.phase == Playing && !w.game.paused && !w.game.bird.dead
    requires w.game.bird.moving && w.frame + 1 - w.lastPress <= ReleaseFrames && delta > 0.0
    requires forall j :: 0 <= j < Width ==> w.game.blocks[j]
    ensures UpdateGame(w, delta, d).game.bird.x == Stride(w.game.bird, Scaled(delta, w.game.speed))
  {
    assert FootprintSolid(w.game.blocks, Stride(w.game.bird, Scaled(delta, w.game.speed)));
  }

  /** A press followed by a tick on an intact ledge walks the character toward the pressed side
      by the speed-scaled walking distance, clamped to the stage. */
  lemma PressThenTickWalks(w: Session, wanted: int, delta: real, d: Draw)
    requires Valid(w) && Steerable(w.game) && !w.game.paused
    requires wanted in {-1, 1} && delta > 0.0
    requires forall j :: 0 <= j < Width ==> w.game.blocks[j]
    ensures UpdateGame(MovePress(w, wanted), delta, d).game.bird.x
         == Clamp(w.game.bird.x + wanted as real * WalkSpeed * Scaled(delta, w.game.speed), BirdHalf)
  {
    var w1 := MovePress(w, wanted);
    assert w1.game == w.game.(bird := w.game.bird.(facing := wanted, moving := true))
        && w1.frame == w1.lastPress;
    var b := w1.game.bird;
    assert Target(b, Scaled(delta, w1.game.speed))
        == w.game.bird.x + wanted as real * WalkSpeed * Scaled(delta, w.game.speed);
    TickOnIntactLedgeWalks(w1, delta, d);
  }
}
