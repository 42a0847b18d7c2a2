# Bird and beans: a verified model of the game core

This project is a Dafny model of the simulation core of a Pebble watch clone of "Pyoro"
(bird and beans). A bird walks along a ledge of twenty blocks at the bottom of a 20 by 20 grid.
Beans fall from the top. The bird catches them with a tongue that shoots diagonally up. A bean
that reaches the ledge knocks out the block below it. A bean that touches the bird kills it, and
the game ends one second later.

The repository holds two variants of the game, and both are modelled:

- **The richer variant** (`birdbeansgame/src/c/birdbeansgame.c`) moves the bird through a queue
  of quarter-unit steps filled by button clicks. It also has pink beans, a repair angel that
  rebuilds a destroyed block, a persistent top-10 table and a score-driven background index.
- **The legacy variant** (`src/c/birdbeansgame.c`) has a three-unit-wide bird. The bird walks
  continuously while a movement button was pressed within the last nine ticks. There is no
  angel, no pink bean and no table.

Both variants share the same design. All state is module-level, and a tick (`update_game`) is
an ordered pipeline of stages. The model writes each stage as a pure function over an immutable
record. The stages compose into one tick, and ticks and button presses compose into runs over
event sequences. Randomness, the time step and button presses are parameters.

The two source files are separate programs with separate records. The legacy bean has no
colour and the legacy bird has a walking flag. So each variant gets its own `Bird`, `Bean`,
`Game` and `Session`. A few members read the same in both: the free-slot, held-bean and
tongue-hit scans, the tongue extension, the bean predicates of the bean stage and the run over
events. They are written once per variant, over that variant's records. The tongue, the phases, the constants and every other piece the two files
have in common live once in `Arena` and `Scan`.

Modules:

| module | file | contents |
|---|---|---|
| `Scan` | scan.dfy | first index satisfying a predicate (the search loops with `break`) |
| `Arena` | arena.dfy | shared constants, the C `(int)` cast, the box overlap test, the clamped and hole-checked move, the catch award, the speed-scaled time step |
| `HighScores` | high_scores.dfy | the top-10 table and its sorted insertion, as a function and as the two loops of the source |
| `StepQueue` | step_queue.dfy | the pending-step queue: its invariant, a button press, consuming one step |
| `GameState` | game_state.dfy | richer-variant entities, initial state, reset, session invariant |
| `Spawn` | spawn.dfy | bean spawning with the pink rule, the destroyed-block search, the angel launch |
| `Simulation` | simulation.dfy | every stage of the richer tick and the tick itself |
| `Controls` | controls.dfy | richer-variant button handlers, event runs, the phase machine and the record-once property |
| `Legacy` | legacy.dfy | legacy-variant entities, spawning, walking, every tick stage and the tick |
| `LegacyControls` | legacy_controls.dfy | legacy-variant button handlers, event runs, ledge and score properties |

## Model

| member | source | states |
|---|---|---|
| Arena.Trunc | birdbeansgame/src/c/birdbeansgame.c:457 | the `(int)` conversion of a float truncates toward zero: the result is within one unit of the input, on the side of zero |
| Arena.Collide | birdbeansgame/src/c/birdbeansgame.c:302-308 | two centred boxes collide exactly when their centres are closer than half the summed widths on both axes; touching edges do not collide |
| Arena.CollideSymmetric | birdbeansgame/src/c/birdbeansgame.c:302-308 | the overlap test does not depend on the order of the boxes |
| Arena.SeparatedBoxesMiss | birdbeansgame/src/c/birdbeansgame.c:302-308 | boxes separated on either axis, touching edges included, never collide |
| Arena.CatchAward | birdbeansgame/src/c/birdbeansgame.c:387-397 | the award is fixed by strict height bands: 1000 above y = 4, 300 on [4, 8), 100 on [8, 12), 50 on [12, 16) and 10 from y = 16 down |
| Arena.CatchAwardNonIncreasing | birdbeansgame/src/c/birdbeansgame.c:387-397 | a catch completed higher up never pays less |
| Arena.CatchAwardSamples | birdbeansgame/src/c/birdbeansgame.c:387-397 | the tiers at a tenth, half and nine tenths of the grid height are 1000, 100 and 10 |
| Arena.ColumnsSolid | birdbeansgame/src/c/birdbeansgame.c:156-160 | the hole-check loop succeeds exactly when every on-grid column from the left to the right footprint column holds a block |
| Arena.Clamp | birdbeansgame/src/c/birdbeansgame.c:149-153 | the candidate centre is left alone inside the stage, and a candidate past either edge is moved to that nearer edge |
| Arena.TryMove | birdbeansgame/src/c/birdbeansgame.c:147-163 | the move lands on the clamped target exactly when no column under the footprint there is missing; otherwise the position is unchanged |
| Arena.Scaled | birdbeansgame/src/c/birdbeansgame.c:329 | the scaled time step is the real one multiplied by the game speed, so it is at least the real one |
| HighScores.Slot | birdbeansgame/src/c/birdbeansgame.c:182-188 | the insertion slot is the first unused slot or the first one holding a strictly smaller score, or -1 when there is none |
| HighScores.Insert | birdbeansgame/src/c/birdbeansgame.c:181-197 | the table keeps ten slots; a score with no slot leaves it unchanged; otherwise the score sits at its slot with every entry in front of it kept |
| HighScores.InsertShifts | birdbeansgame/src/c/birdbeansgame.c:181-197 | the score lands at its slot, earlier entries stay and later ones shift down by one; a score with no slot leaves the table alone |
| HighScores.InsertDropsLast | birdbeansgame/src/c/birdbeansgame.c:189-195 | a qualifying score replaces exactly the last entry: as a multiset the table loses its tenth score and gains the new one |
| HighScores.InsertKeepsRanked | birdbeansgame/src/c/birdbeansgame.c:181-197 | inserting a non-negative score keeps the table sorted best first, with unused slots last |
| HighScores.InsertAfterTies | birdbeansgame/src/c/birdbeansgame.c:184 | an equal older score stays in front of the new one; everything behind the new score is smaller or unused |
| HighScores.InsertChangesIffQualifies | birdbeansgame/src/c/birdbeansgame.c:183-191 | a score finds no slot exactly when the table is full and the score is no better than the last entry, and then the table is unchanged |
| HighScores.InsertAt | birdbeansgame/src/c/birdbeansgame.c:181-197 | once the first qualifying slot is known, insertion is that prefix, the score, and the shifted rest |
| HighScores.InsertExample | birdbeansgame/src/c/birdbeansgame.c:181-197 | inserting 50, 200 and 75 into an unused table gives 200, 75, 50 |
| HighScores.InsertHighScore | birdbeansgame/src/c/birdbeansgame.c:181-197 | the search loop with `break` and the shift-down loop compute the same table as the functional insertion |
| StepQueue.Press | birdbeansgame/src/c/birdbeansgame.c:959-1027 | a press keeps the queue invariant and faces the pressed way; against the facing it only turns and empties the queue; otherwise it adds 1 or 4 steps, capped at 60 |
| StepQueue.Consume | birdbeansgame/src/c/birdbeansgame.c:338-344 | one attempt uses up one step whether or not it moved, forgets the direction when none remain, and keeps the invariant |
| GameState.InitGame | birdbeansgame/src/c/birdbeansgame.c:200-231 | a fresh game is in the menu with score 0, speed 1, both timers 0 and no pause; the bird stands at (10, 18) facing right, alive, tongue in; every block stands and is not under repair; every bean slot is free and green; no angel |
| GameState.Reset | birdbeansgame/src/c/birdbeansgame.c:233-246 | a reset starts play on a fresh game with an empty step queue and the first background; the table and last score carry over |
| GameState.InitialValid | birdbeansgame/src/c/birdbeansgame.c:200-246 | the start-up session and every reset satisfy the session invariant |
| Spawn.FindDestroyedBlock | birdbeansgame/src/c/birdbeansgame.c:249-256 | the result is the lowest column that is missing and not under repair, or -1 when every column stands or is being repaired |
| Spawn.FreeSlot | birdbeansgame/src/c/birdbeansgame.c:260-261 | the result is the lowest inactive bean slot, or -1 when all five are active |
| Spawn.NewBean | birdbeansgame/src/c/birdbeansgame.c:262-275 | a new bean starts at the top, centred in column `column % 20`, with speed in [0.5, 1.5); it is pink exactly when some block awaits repair and the pink draw is 0 or 1 out of 5 |
| Spawn.SpawnBean | birdbeansgame/src/c/birdbeansgame.c:259-279 | only the lowest free slot is filled, and a spawn with the pool full is dropped |
| Spawn.SpawnAngel | birdbeansgame/src/c/birdbeansgame.c:282-299 | an out-of-range, standing or already-repairing target, or an active angel, changes nothing; otherwise the angel starts above the target, descending, and only the target is marked as under repair; the repair invariant is kept |
| Spawn.SpawnAngelOnDestroyed | birdbeansgame/src/c/birdbeansgame.c:380-385 | with an idle angel, launching toward the block the search found marks exactly that block and no other |
| Simulation.ApplyStep | birdbeansgame/src/c/birdbeansgame.c:147-163 | an accepted quarter step lands on its target clamped to [1, 19]; the step is refused, leaving x alone, exactly when a block under the two-unit footprint at the clamped target is missing |
| Simulation.DrainQueue | birdbeansgame/src/c/birdbeansgame.c:334-344 | with the tongue out the queue is emptied; otherwise exactly one pending step is tried, the bird ends where that step puts it, and the queue loses that step; only the queue and the bird's x change, and the invariant holds |
| Simulation.HeldSlot | birdbeansgame/src/c/birdbeansgame.c:361-367 | the result is the first active caught bean, or -1 |
| Simulation.HitSlot | birdbeansgame/src/c/birdbeansgame.c:415-427 | the result is the first active free bean whose box overlaps the tongue tip, or -1 when none does |
| Simulation.ExtendTongue | birdbeansgame/src/c/birdbeansgame.c:409-434 | the tip moves 15 units per scaled second up and along its direction; the first free bean it then overlaps is the only bean marked caught; the tongue turns back exactly when it catches a bean or leaves the grid |
| Simulation.Drag | birdbeansgame/src/c/birdbeansgame.c:354-369 | the returning tip moves back 30 units per scaled second; a tongue that caught a bean moves the first held bean to the tip and nothing else; the held slot stays the same |
| Simulation.Swallow | birdbeansgame/src/c/birdbeansgame.c:372-405 | with no held bean nothing changes; otherwise the held bean leaves the pool and the catch award is added; a pink bean, with a destroyed block and an idle angel, launches the angel at the first destroyed block, and otherwise blocks and angel stay |
| Simulation.RetractTongue | birdbeansgame/src/c/birdbeansgame.c:354-406 | the tip moves back 30 units per scaled second; while still above the bird only the held bean follows it and nothing is scored; once level with the bird the tongue goes in, the held bean alone leaves the pool for the award at that height, and a pink one with a destroyed block and an idle angel launches the angel at the first destroyed block; without a held bean beans, blocks, angel and score stay |
| Simulation.UpdateTongue | birdbeansgame/src/c/birdbeansgame.c:352-435 | an inactive tongue changes nothing; a returning tongue that reaches the bird goes in and scores exactly 10 when it holds a bean, nothing otherwise; a tongue still out scores nothing |
| Simulation.FallOne | birdbeansgame/src/c/birdbeansgame.c:438-465 | one slot of the bean loop: an idle or held bean is left alone; a falling bean that touches the living bird with its tongue in kills it and starts the 1-second timer; one that reaches the ledge leaves the pool and knocks out exactly its column's block; any other falls |
| Simulation.FallFrom | birdbeansgame/src/c/birdbeansgame.c:437-466 | blocks only fall and repair marks are untouched; the bird dies only with its tongue in, and then the death timer is 1; when no bean touches the bird it stays alive; beans before the starting slot are untouched |
| Simulation.FallFromSlot | birdbeansgame/src/c/birdbeansgame.c:437-466 | for every slot that no earlier bean's kill stopped: an idle or held bean is untouched; a killing bean ends the stage with every later slot untouched; a landing bean leaves the pool and its column's block is gone; any other loose bean falls |
| Simulation.FallKeepsRepair | birdbeansgame/src/c/birdbeansgame.c:438-466 | the bean stage keeps the repair invariant |
| Simulation.UpdateAngel | birdbeansgame/src/c/birdbeansgame.c:468-494 | an idle angel changes nothing; a descending angel moves down 35 units per scaled second and, on reaching the ledge, turns up and rebuilds and unmarks its target; an ascending angel moves up and leaves once above the grid; the repair invariant is kept |
| Simulation.SpawnTick | birdbeansgame/src/c/birdbeansgame.c:496-501 | below the threshold of 2 divided by the speed the timer grows and the pool is untouched; at the threshold the timer restarts and a new bean fills the lowest free slot, if any |
| Simulation.BackgroundIndex | birdbeansgame/src/c/birdbeansgame.c:508-522 | the background index is in [0, 20], one step per 40 points, and it is the last image exactly from 800 points on |
| Simulation.DeathTick | birdbeansgame/src/c/birdbeansgame.c:316-327 | a dead bird's tick only counts down; when the timer runs out the game is over, the score is inserted into the table and remembered as the last score |
| Simulation.Physics | birdbeansgame/src/c/birdbeansgame.c:352-501 | the entity stages keep the game invariant, leave the bird's x and facing alone, and add exactly 10 when the returning tongue brings a held bean back, nothing otherwise |
| Simulation.PhysicsLaunchesAngel | birdbeansgame/src/c/birdbeansgame.c:370-385 | a pink bean brought back with a block destroyed and no angel about sends the angel to the first destroyed block in the same tick; the target is under repair until the angel reaches the ledge, where it stands again |
| Simulation.Advance | birdbeansgame/src/c/birdbeansgame.c:329-344 | the speed ramp and drain keep the invariant, raise the speed, and change only the speed and the bird's x in the game |
| Simulation.LiveTick | birdbeansgame/src/c/birdbeansgame.c:329-522 | a living tick keeps the invariant, keeps the phase and the table, never lowers the score and raises the speed |
| Simulation.UpdateGame | birdbeansgame/src/c/birdbeansgame.c:311-525 | outside play or while paused nothing changes; the phase only goes from Playing to GameOver, only for a dead bird, and exactly then the table records the score |
| Controls.MovePress | birdbeansgame/src/c/birdbeansgame.c:959-1027 | outside steerable play a press changes nothing; otherwise it only changes the facing and the queue, as the queue press prescribes; the bird never moves here |
| Controls.ShotTongue | birdbeansgame/src/c/birdbeansgame.c:948-954 | the shot tongue starts 3.1 units ahead on the facing side and 1.9 above the bird, heading the facing way |
| Controls.SelectPress | birdbeansgame/src/c/birdbeansgame.c:935-957 | select starts a game from the menu, returns to the menu from game over, shoots the tongue and empties the queue in steerable play, and otherwise changes nothing |
| Controls.Handle | birdbeansgame/src/c/birdbeansgame.c:929-1035 | each event keeps the invariant and moves the phase only along Menu, Playing, GameOver, Menu; only a game's end writes the table, with that game's score |
| Controls.Run | birdbeansgame/src/c/birdbeansgame.c:929-1035 | every session reachable by events from a valid one is valid |
| Controls.OneRecordPerGame | birdbeansgame/src/c/birdbeansgame.c:316-323 | along any run, games started plus one in progress at the start equal games recorded plus one in progress at the end |
| Controls.TableOnlyChangesAtGameOver | birdbeansgame/src/c/birdbeansgame.c:319-322 | a run in which no game ends leaves the table unchanged |
| Controls.GameOverIsFrozen | birdbeansgame/src/c/birdbeansgame.c:311-314 | on the game-over screen ticks and movement presses change nothing until select |
| Controls.ScoreNeverDecreases | birdbeansgame/src/c/birdbeansgame.c:398 | without a new game the score never decreases along a run |
| Controls.CatchScoresTen | birdbeansgame/src/c/birdbeansgame.c:352-406 | a living tick raises the score by exactly 10 when the returning tongue brings a held bean back to the bird, and leaves it alone otherwise |
| Controls.PinkCatchLaunchesAngel | birdbeansgame/src/c/birdbeansgame.c:370-385 | a living tick that brings a pink bean back, with a block destroyed and no angel about, launches the angel toward the first destroyed block |
| Controls.QueuedStepMoves | birdbeansgame/src/c/birdbeansgame.c:334-344 | a living tick with the tongue in and a step queued on an intact ledge moves the bird a quarter unit toward the queued side, clamped to the grid, and uses up one queued step |
| Legacy.InitGame | src/c/birdbeansgame.c:103-128 | a fresh game is in the menu with score 0, speed 1, both timers 0 and no pause; the bird stands at (10, 18) facing right, not walking, alive, tongue in; every block stands; every bean slot is free |
| Legacy.Reset | src/c/birdbeansgame.c:130-134 | a reset starts play on a fresh game; the frame counter and last-press stamp carry over |
| Legacy.InitialValid | src/c/birdbeansgame.c:103-134 | the start-up session and every reset satisfy the legacy session invariant |
| Legacy.FreeSlot | src/c/birdbeansgame.c:138-139 | the result is the lowest inactive bean slot, or -1 when all five are active |
| Legacy.NewBean | src/c/birdbeansgame.c:140-144 | a new bean starts at the top, centred in column `column % 20`, where it will land, with speed in [0.5, 1.5) |
| Legacy.SpawnBean | src/c/birdbeansgame.c:137-148 | only the lowest free slot is filled, and a spawn with the pool full is dropped |
| Legacy.Stride | src/c/birdbeansgame.c:198-206 | the walking target is 25 units per scaled second ahead in the facing direction, held at 1.5 or 18.5 when it would pass either edge |
| Legacy.Walk | src/c/birdbeansgame.c:197-223 | only a walking bird moves and only its x changes; it reaches the clamped target when the three-unit footprint there stands, and stays put otherwise |
| Legacy.HeldSlot | src/c/birdbeansgame.c:235-241 | the result is the first active caught bean, or -1 |
| Legacy.HitSlot | src/c/birdbeansgame.c:276-289 | the result is the first active free bean whose box overlaps the tongue tip, or -1 |
| Legacy.ExtendTongue | src/c/birdbeansgame.c:271-296 | the tip moves 15 units per scaled second up and along its direction; the first free bean it then overlaps is the only bean marked caught; the tongue turns back exactly when it catches a bean or leaves the grid |
| Legacy.RetractTongue | src/c/birdbeansgame.c:227-269 | the tip moves back 30 units per scaled second and the held bean follows it; once level with the bird the tongue goes in, a set caught flag scores the award at that height, and the held bean leaves the pool; otherwise nothing is scored |
| Legacy.UpdateTongue | src/c/birdbeansgame.c:225-297 | the tongue stage never activates a tongue; a returning tongue that reaches the bird goes in and scores exactly 10 when it caught a bean, nothing otherwise; a tongue still out scores nothing |
| Legacy.FallOne | src/c/birdbeansgame.c:300-327 | one slot of the bean loop: an idle or held bean is left alone; a falling bean that touches the living bird with its tongue in kills it and starts the 1-second timer; one that reaches the ledge leaves the pool and knocks out exactly its column's block; any other falls |
| Legacy.FallFrom | src/c/birdbeansgame.c:299-328 | blocks only fall; the bird dies only with its tongue in, and then the death timer is 1; when no bean touches the bird it stays alive; beans before the starting slot are untouched |
| Legacy.FallFromSlot | src/c/birdbeansgame.c:299-328 | for every slot that no earlier bean's kill stopped: an idle or held bean is untouched; a killing bean ends the stage with every later slot untouched; a landing bean leaves the pool and its column's block is gone; any other loose bean falls |
| Legacy.SpawnTick | src/c/birdbeansgame.c:330-335 | the spawn timer restarts exactly when it reaches 2 divided by the speed (or sums to 0); below the threshold the pool is untouched; at it a new bean fills the lowest free slot, if any |
| Legacy.Release | src/c/birdbeansgame.c:181-195 | the frame counter advances and the bird keeps walking exactly when it was walking, its tongue is in and at most nine ticks passed since the last press |
| Legacy.Physics | src/c/birdbeansgame.c:225-335 | the entity stages keep the invariant and leave position, facing and walking alone; they add exactly 10 when the returning tongue brings a catch back and nothing otherwise; blocks are only knocked out; a death leaves the tongue in and the timer at 1 |
| Legacy.Advance | src/c/birdbeansgame.c:176-223 | the speed ramp, release and walk keep the invariant and, inside the release window, move the bird to the stride target exactly when the footprint there stands |
| Legacy.LiveTick | src/c/birdbeansgame.c:176-335 | a living tick advances the frame, keeps the phase, raises the speed, adds 0 or 10 points, only knocks blocks out, and walks as the stride rule says |
| Legacy.UpdateGame | src/c/birdbeansgame.c:160-343 | outside play or while paused nothing changes; a dead bird only counts down to game over, recording nothing; a living tick advances the frame; blocks never come back and the score rises by 0 or 10 |
| LegacyControls.MovePress | src/c/birdbeansgame.c:700-714 | in steerable play a press faces the pressed way, starts walking and stamps the current frame; otherwise nothing changes |
| LegacyControls.ShotTongue | src/c/birdbeansgame.c:690-695 | the shot tongue starts 2.1 units ahead on the facing side at height 17.1, heading the facing way |
| LegacyControls.SelectPress | src/c/birdbeansgame.c:679-698 | select starts a game from the menu, returns to the menu from game over, stops the bird and shoots the tongue in steerable play, and otherwise changes nothing |
| LegacyControls.Handle | src/c/birdbeansgame.c:673-722 | each event keeps the invariant and moves the phase only along Menu, Playing, GameOver, Menu; except a game start, it adds 0 or 10 points and never rebuilds a block |
| LegacyControls.Run | src/c/birdbeansgame.c:673-722 | every session reachable by events from a valid one is valid |
| LegacyControls.StandingMonotone | src/c/birdbeansgame.c:318-326 | a ledge whose blocks all stood before has no more standing blocks than before |
| LegacyControls.BlocksNeverRebuilt | src/c/birdbeansgame.c:318-326 | without a new game no block comes back, so the count of standing blocks never grows |
| LegacyControls.ScoreGrowsInTens | src/c/birdbeansgame.c:245-258 | without a new game the score is the starting score plus 10 for every event that raised it |
| LegacyControls.CatchScoresTen | src/c/birdbeansgame.c:225-269 | a living tick raises the score by exactly 10 when the returning tongue brings a catch back to the bird, and leaves it alone otherwise |
| LegacyControls.ReleasedButtonStops | src/c/birdbeansgame.c:189-195 | without movement presses the last-press stamp stays, so more than nine ticks after it the bird is standing still |
| LegacyControls.TickOnIntactLedgeWalks | src/c/birdbeansgame.c:197-223 | a living tick inside the release window on an intact ledge takes the full clamped stride |
| LegacyControls.PressThenTickWalks | src/c/birdbeansgame.c:700-714 | a press then a tick on an intact ledge moves the bird 25 units per scaled second toward the pressed side, clamped to the stage |

## Left out

- Rendering, sprites, animation frames, text layers, window set-up and the `layer_mark_dirty`
  calls have no effect on the simulation and are not modelled.
- App timers are not modelled as such: every firing of the 16 ms timer is a `Frame` event, and a
  run may hold any sequence of them. Each game start registers one more self-rearming timer
  (`game_update`, birdbeansgame/src/c/birdbeansgame.c:929-941; src/c/birdbeansgame.c:673-685)
  and none is cancelled before the window unloads, so the n-th game receives n ticks per 16 ms.
  The model admits that interleaving but does not count timers or tie ticks to wall-clock time.
- `score`, the table entries and the last score are C `int`. The model uses unbounded integers
  and does not model overflow past 2^31 - 1 (about 2 * 10^8 catches); the score monotonicity,
  steps of 10 and ranked-table properties hold only below that bound.
- Persistent storage of the top-10 table (`load_high_scores`, `save_high_scores`) is not modelled;
  the table is a plain sequence carried in the session.
- Time is a parameter: the source's 16 ms timer passes a fixed 0.016. The model takes any
  positive step.
- `rand()` is a parameter: a record of natural numbers (a `Roll` or a `Draw`) whose remainders
  are used exactly as the source uses them.
- Floating point: positions, speeds and timers are exact reals. Single-precision rounding is
  not modelled, so a comparison that sits exactly on a boundary may differ by rounding.
- The legacy frame counter and last-press stamp are `uint32_t` in the source. The model uses unbounded naturals and does not model the wrap-around after 2^32 ticks (about two years at
  60 ticks per second).
- The richer variant's `moving` and `button_held` flags are written but never read, and its
  frame counter is read only by the bean animation, so none of them is part of its state.
- Fields of an inactive bean, tongue or angel that `init_game` leaves stale are zero in the model.
  They are never read while the entity is inactive.
- The pause flag is never set by any handler. It is kept in the state and every tick honours it.
- The collision, award, clamp and hole-check members cite the richer file. The legacy file has
  identical code at its own lines (`check_collision` at 151-157, the award at 248-258, the
  walking clamp and hole check at 201-222) with the three-unit bird size.
- The two variants score a catch differently, and each is modelled as written. The legacy
  source scores whenever the tongue's caught flag is set, even if no held bean is found. The
  richer source scores only inside the loop that finds the held bean.
