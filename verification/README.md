# Snake game core in Dafny

A model of the game logic of an arcade snake game written for Pygame. The
snake moves one 25-pixel grid cell per tick on a 1200 x 900 window (48 x 36
cells). It grows when it eats food, speeds up by 2 per food up to 30, and
dies on a wall or on its own body. A collected shield absorbs one crash.
On the Easy difficulty the walls wrap around instead.

On top of that:

- **Bombs** have a 180-tick fuse. Their explosion kills the snake during its first ten ticks, and the allowance comes back after the explosion.
- **Power-ups** are timed: a slow potion, a shield and double score.
- **Difficulty presets** are Easy, Medium and Hard.
- **Themes** cycle in a fixed order.
- **The first, legacy version** of the game has no menu, power-ups or bombs.

Everything is modelled as immutable datatypes and pure functions:

- A game is a `Game.Game` value. A key press is `Game.HandleKey`; one frame of play is `Game.Tick`, and `Game.TickAsWritten` is the same frame with the power-up calls in the game's own order.
- The clock is a `now` parameter, one reading per tick.
- Every random choice of a tick is a parameter: the spawn cell and kind of a power-up, the particle burst of an exploding bomb, and the food cells drawn until one is off the snake. The `requires` clauses restrict these to the ranges the game draws from.
- Score multipliers are counted in halves: 0.5 is 1, 1.0 is 2 and 2.0 is 4. Points are `(10 * m * d) / 4`. For non-negative values this is the same as the game's `int(10 * m * d)`.
- The power-up phase of `Game.Tick` restores expired effects before the manager update. The game runs these calls in the opposite order (`Game.TickAsWritten`). With one clock reading that order restores nothing. With the game's separate clock reads it restores only a record whose end time falls between the reads of `update` and `remove_effects` in one tick; see "## Findings".
- An explosion's particle cloud is represented by the longest remaining particle lifetime.
- The hit-test `sqrt(dx² + dy²) < radius + r` is compared on squared integers. `Bombs.SquareTestMatchesSqrt` proves that this agrees with the real square root.

| file | module | models |
|---|---|---|
| config.dfy | `Config` | constants, positions, directions, game states |
| options.dfy, seqs.dfy | `Options`, `Seqs` | an option type and a list filter |
| difficulty.dfy | `Difficulty` | src/core/difficulty.py |
| themes.dfy | `Themes` | the theme manager of src/config/themes.py |
| snake.dfy | `Snakes` | src/game/snake.py |
| food.dfy | `Foods` | src/game/food.py |
| powerups.dfy | `PowerUps` | src/game/powerups.py |
| bomb.dfy | `Bombs` | src/game/bomb.py |
| game.dfy | `Game` | the state machine and tick of src/game/game.py |
| legacy.dfy | `LegacySnake`, `LegacyGame` | the top-level snake.py and game.py |

`Game.Tick` runs the power-up calls in the corrected order, and
`Game.TickAsWritten` runs them in the game's own order (see "## Findings").
Everything else follows the program. Notes on the program's behaviour:

- **Points.** Points are truncated with `int(...)`. `Game.PointsAreExact` shows that no multiplier that actually occurs produces a fraction, so the truncation never drops anything.
- **R after game over.** On the current game, R leads to the MENU. Starting play takes a second key. `Game.RestartGoesThroughMenu` states this. The legacy game restarts play at once.
- **Bomb replenishment.** Every exploded bomb that is removed gives a bomb back, including one that hit the snake.
- **Speed growth.** Growing uses the global increment 2 and cap 30; the difficulty preset's increment and cap are never read. See `Game.GrowthIgnoresThePreset`.
- **Food placement on reset.** On reset the current game places the food on a random cell without checking the snake. The legacy reset respawns the food off the snake.
- **Placement.** The food placement loop retries without bound. The model takes the sequence of cells drawn and requires one of them to be off the snake. A power-up spawns on a single drawn cell, with no check, so it may lie under the snake or the food.

## Model

| member | source | states |
|---|---|---|
| Config.Opposite | src/game/snake.py:66 | the reverse of a direction negates both components, and for the four axis directions it is again an axis direction different from the original |
| Config.CellIsInWindow | config.py:7-19 | the 48 x 36 grid of 25-pixel cells lies inside the 1200 x 900 window |
| Difficulty.PresetsAreSane | src/core/difficulty.py:28-53 | in every preset the initial speed is at most the cap and the increment is positive. Wrap-around is on exactly for Easy and exactly where bombs are off, and the score multiplier is 0.5, 1.0 or 2.0 |
| Difficulty.LowerAll | src/core/difficulty.py:72 | lower-casing keeps the length and maps each character independently |
| Difficulty.Capitalize | src/core/difficulty.py:72 | capitalising keeps the length, upper-cases the first character and lower-cases every other one |
| Difficulty.Index | src/core/difficulty.py:76-77 | a level's position in declaration order is below 3 |
| Difficulty.LevelAt | src/core/difficulty.py:79 | the level at a position has that position |
| Difficulty.IndexRoundTrip | src/core/difficulty.py:76-79 | position, then level at the position, gives the level back |
| Difficulty.NewManager | src/core/difficulty.py:59-60 | a new manager starts on Medium |
| Difficulty.SetDifficulty | src/core/difficulty.py:66-68 | setting a level makes it current |
| Difficulty.NamesAre | src/core/difficulty.py:70-72 | the names are "Easy", "Medium" and "Hard" |
| Difficulty.NamesAreDistinct | src/core/difficulty.py:70-72 | two managers have the same name iff they are on the same level |
| Difficulty.CycleDifficulty | src/core/difficulty.py:74-80 | cycling moves to position (i + 1) mod 3 and returns the new level's name |
| Difficulty.CycleOrder | src/core/difficulty.py:74-80 | the cycle runs Easy, Medium, Hard, Easy |
| Difficulty.CycleThriceIsIdentity | src/core/difficulty.py:74-80 | three cycles return to the starting level |
| Themes.NewManager | src/config/themes.py:112-120 | a new manager is well formed, holds four themes and starts on dark_tech |
| Themes.CurrentTheme | src/config/themes.py:122-125 | the current key is a registered theme and the result is that theme |
| Themes.SwitchTheme | src/config/themes.py:127-132 | the switch succeeds iff the key is registered; then the key becomes current, otherwise nothing changes; well-formedness is kept |
| Themes.IndexOf | src/config/themes.py:136 | the index is that of the first occurrence of the key |
| Themes.IndexOfDistinct | src/config/themes.py:119 | in an order without repeats, a key's index is its position |
| Themes.NextIndex | src/config/themes.py:137 | the next index stays in range |
| Themes.CycleTheme | src/config/themes.py:134-139 | cycling moves the current key one step along the order, wrapping at the end. It keeps the manager well formed and returns the new theme's display name |
| Themes.CycleTimes | src/config/themes.py:134-139 | any number of cycles keeps the manager well formed |
| Themes.CycleTimesIndex | src/config/themes.py:134-139 | after k cycles (k at most the number of themes) the current index is i + k, or i + k - n once it passes the end |
| Themes.CycleTimesShift | src/config/themes.py:134-139 | k + 1 cycles are one cycle after k cycles |
| Themes.CycleAllThemesIsIdentity | src/config/themes.py:134-139 | cycling once per theme returns exactly the starting manager |
| Themes.AllThemeNames | src/config/themes.py:141-143 | the names list follows the theme order, one display name per key |
| Themes.ShippedNames | src/config/themes.py:112-143 | the shipped names are Dark Tech, Kids Bright, Ocean and Candy, in that order |
| Themes.ShippedFirstCycle | src/config/themes.py:112-139 | the first cycle from the start selects kids_bright and shows Kids Bright |
| Themes.ShippedFourCycles | src/config/themes.py:112-139 | four cycles from the start return to the initial manager |
| Snakes.NewSnake | src/game/snake.py:28-41 | a new snake is one segment at the start point, heading right, at speed 10, with no pending growth, combo 0 and the normal expression |
| Snakes.Move | src/game/snake.py:43-57 | the new head is one cell along the direction. The length grows by one exactly when growth was pending. Every old segment shifts back one place, the pending flag is cleared, and nothing else changes |
| Snakes.MoveShifts | src/game/snake.py:51-55 | without pending growth the tail segment is dropped |
| Snakes.MoveGrows | src/game/snake.py:51-57 | with pending growth every old segment is kept |
| Snakes.ChangeDirection | src/game/snake.py:59-67 | the turn is taken unless it is the exact reverse of the current direction |
| Snakes.ChangeDirectionRejectsOnlyReversal | src/game/snake.py:59-67 | for the four arrow directions, the direction stays put iff the request is the reverse or the same; any other request is taken |
| Snakes.SetExpression | src/game/snake.py:82-85 | sets the expression and its timer and nothing else |
| Snakes.Grow | src/game/snake.py:69-80 | marks growth pending and raises the speed by 2, capped at 30. The combo goes up by one, and the face is excited for 40 ticks from the third food on, otherwise happy for 30. The body is not touched |
| Snakes.GrowThenMoveAddsOne | src/game/snake.py:43-80 | eating shows up on the next move as exactly one more segment behind the new head |
| Snakes.GrowSpeedBounded | src/game/snake.py:73 | growing never lowers the speed and never passes 30 |
| Snakes.GrowTimesSpeed | src/game/snake.py:73-75 | after n foods the speed is min(speed + 2n, 30) and the combo has gone up by n |
| Snakes.TenFoodsReachTheCap | src/game/snake.py:73 | from speed 10 the cap is reached at the tenth food and not before |
| Snakes.UpdateExpression | src/game/snake.py:87-92 | a positive timer counts down by one; a spent timer restores the normal face |
| Snakes.ExpressionLasts | src/game/snake.py:87-92 | the first t updates only count the timer down |
| Snakes.ExpressionEnds | src/game/snake.py:87-92 | an expression with timer t is still shown after t updates and is normal after t + 1 |
| Snakes.ResetCombo | src/game/snake.py:94-96 | clears the combo count and nothing else |
| Snakes.SelfCollision | src/game/snake.py:98-101 | true iff the head occurs again further down the body; a one-segment snake never hits itself |
| Snakes.WallCheck | src/game/snake.py:103-121 | without wrap-around the snake is unchanged and the result is a hit iff the head has left the window. With wrap-around there is never a hit, and the head is moved into the window, congruent to where it was; the body is unchanged |
| Snakes.WrapIsIdempotent | src/game/snake.py:111-117 | wrapping leaves a head inside the window alone, so wrapping twice is wrapping once |
| Snakes.ExitedHeadStaysOut | src/game/snake.py:43-121 | without wrap-around, a head that has just left the window stays outside after the next move whatever turn is requested |
| Foods.GeneratePosition | src/game/food.py:26-34 | column i and row j give the corner of a grid cell, from which i and j are recovered |
| Foods.GeneratePositionCoversCells | src/game/food.py:26-34 | every grid cell is the position of its own column and row |
| Foods.NewFood | src/game/food.py:20-24 | new food sits on the drawn cell with both animation counters at 0 |
| Foods.FirstFree | src/game/food.py:36-45 | the result is off the snake and is the first drawn cell that is |
| Foods.Respawn | src/game/food.py:36-45 | the food moves to the first drawn grid cell off the snake, and its animation counters are kept |
| Foods.Update | src/game/food.py:47-50 | the pulse advances by 1 and the rotation by 2; the food stays put |
| PowerUps.NewPowerUp | src/game/powerups.py:28-41 | a new item is active with the spawn time, place and kind given |
| PowerUps.UpdatePowerUp | src/game/powerups.py:57-62 | an item stays active iff it was active and no more than 10 s have passed since it spawned; the pulse advances |
| PowerUps.CollidesOnGridIsEquality | src/game/powerups.py:130-134 | on grid-aligned positions the closer-than-one-cell test is plain equality |
| PowerUps.NewManager | src/game/powerups.py:140-145 | a new manager has no items and no effects, and its spawn clock starts now |
| PowerUps.SpawnRandom | src/game/powerups.py:168-179 | exactly one item is appended after the existing ones: a fresh item of the drawn kind, spawned now, at column x 25 and row x 25 of the draw, which lies in columns 2..45 and rows 2..33 |
| PowerUps.UpdateAll | src/game/powerups.py:157-158 | every item is aged, in order |
| PowerUps.AgeAndPrune | src/game/powerups.py:157-160 | every item that is still active after ageing is kept, every kept item is an aged old item, and only active items remain |
| PowerUps.AgeAndPruneAppend | src/game/powerups.py:152-160 | an item appended before ageing that survives it ends the list after ageing |
| PowerUps.Update | src/game/powerups.py:147-166 | when more than 15 s have passed since the last spawn, the last item is the new item from the draw, aged once, and the spawn clock moves to now. Every old item still active after ageing is kept, and nothing but aged old items and the new one appears. The effect list keeps, in order, exactly the records that have not expired |
| PowerUps.UpdateSpawnsOne | src/game/powerups.py:151-160 | the items after an update are the surviving aged items in order, followed by the new item exactly when a spawn is due; with every item still fresh, the count grows by exactly one on a spawn and stays the same otherwise |
| PowerUps.FirstCollision | src/game/powerups.py:188-196 | there is no result iff no item touches the head, otherwise the result is the first item that does |
| PowerUps.ApplyEffect | src/game/powerups.py:198-216 | every kind records an end time of now plus its duration. The slow potion records the current speed and sets the speed to max(5, speed - 5). The shield turns on and double score sets the multiplier to 2.0 |
| PowerUps.CheckCollection | src/game/powerups.py:181-216 | nothing is collected iff no item touches the head, and then nothing changes. Otherwise the first touching item is removed, its effect is applied and its record is appended. Afterwards the shield is on iff it was on or a shield was collected, and the multiplier is 2.0 if double score was collected and unchanged otherwise. No expired record is introduced |
| PowerUps.RemoveEffects | src/game/powerups.py:218-235 | the remaining records are exactly the unexpired ones, in order; with nothing expired no field changes |
| PowerUps.AnyExpiredCons | src/game/powerups.py:222-225 | an expired record of a kind is either the first record or among the rest |
| PowerUps.RemoveEffectsShield | src/game/powerups.py:230-231 | after removal the shield is off iff an expired shield record was present, and otherwise unchanged |
| PowerUps.RemoveEffectsMultiplier | src/game/powerups.py:232-233 | after removal the multiplier is 1.0 iff an expired double-score record was present, and otherwise unchanged |
| PowerUps.RemoveEffectsSpeed | src/game/powerups.py:227-229 | without an expired slow record holding a speed, the speed is unchanged. Otherwise it is the speed held by the last such record |
| PowerUps.Clear | src/game/powerups.py:271-274 | clearing empties items and effects and keeps the spawn clock |
| PowerUps.UpdateHidesExpiredEffects | src/game/powerups.py:147-235 | after an update at time t1 no record expired by t1 remains, so removal at the same time finds nothing to restore. Removal at a time t2 turns the shield off exactly when a shield record ended in t1 .. t2 - 1, and likewise resets the multiplier |
| PowerUps.SurvivorsExpiringBetween | src/game/powerups.py:162-166 | the records an update at t1 keeps that have expired by t2 are exactly those ending in t1 .. t2 - 1 |
| PowerUps.EffectDurations | src/game/powerups.py:44-55 | the durations are 5, 3 and 8 s, each shorter than an item's 10 s lifetime, which is shorter than the 15 s spawn interval |
| PowerUps.RestoreUndoesApply | src/game/powerups.py:198-233 | restoring a record undoes its effect on a game with no shield and multiplier 1.0 |
| Bombs.NewBomb | src/game/bomb.py:14-24 | a new bomb is active and unexploded with radius 100, a 180-tick fuse and a 45-tick explosion |
| Bombs.Explode | src/game/bomb.py:44-48 | exploding marks the bomb exploded and active and adds the burst of particles |
| Bombs.UpdateExplosion | src/game/bomb.py:90-106 | the timer advances and every particle ages by one. The bomb goes inactive once the timer reaches the duration and no particle is left |
| Bombs.Update | src/game/bomb.py:34-42 | an unexploded bomb burns one tick of fuse and explodes when the fuse reaches 0; an exploded one ages. A bomb only goes inactive when its explosion has run out; position, radius and duration never change |
| Bombs.FuseBurns | src/game/bomb.py:36-39 | for fewer updates than the fuse, the bomb only counts down |
| Bombs.FreshBombExplodesOn180th | src/game/bomb.py:14-48 | a new bomb is still unexploded after 179 updates and explodes on the 180th |
| Bombs.Aftermath | src/game/bomb.py:90-106 | k ticks after the blast the timer reads k and the longest particle has m - k ticks left. The bomb is active iff k < 45 or a particle survives |
| Bombs.InactiveWithinFifty | src/game/bomb.py:90-106 | after the blast the bomb is active for at least 44 more updates and is gone after 50 |
| Bombs.DistanceComparison | src/game/bomb.py:174-175 | for a non-negative distance d, d < R iff R > 0 and d² < R² |
| Bombs.IsColliding | src/game/bomb.py:171-176 | a hit needs an explosion less than 15 ticks old; then it is a hit iff the squared distance is below (radius + r)² |
| Bombs.SquareTestMatchesSqrt | src/game/bomb.py:171-176 | the squared comparison gives the same answer as comparing the real square root with radius + r |
| Bombs.HitWindowExample | src/game/bomb.py:171-176 | a point 99 px from a radius-100 bomb is hit while the timer is below 15, not at 20 and not before the blast |
| Bombs.GetExplosionArea | src/game/bomb.py:165-169 | the area is reported iff the explosion is less than 10 ticks old, as centre and radius |
| Bombs.AreaIsHitRegion | src/game/bomb.py:165-176 | while the area is reported, a point lies in it iff the hit-test without slack reports it |
| Game.NewGame | src/game/game.py:77-91 | the game starts in the menu with no snake or food, three bombs, Medium difficulty and the dark_tech theme |
| Game.Reset | src/game/game.py:149-181 | the new snake is at (100, 100) with the preset's initial speed, and food sits on the drawn cell. Score, multiplier and shield are cleared, there are no bombs, and the allowance is full iff the preset enables bombs. Power-ups are cleared, the state is MENU, and the invariant is kept |
| Game.StartGame | src/game/game.py:143-147 | starting is a reset followed by RUNNING |
| Game.PlaceBomb | src/game/game.py:598-607 | a bomb is placed at the head iff one is left and the cooldown has run out. That costs one bomb and sets a 30-tick cooldown; otherwise nothing changes |
| Game.MenuKey | src/game/game.py:190-211 | in the menu SPACE starts a run, T and D cycle theme and difficulty, Q quits, and every other key leaves the game alone |
| Game.RunningKey | src/game/game.py:212-244 | while running, arrows steer and B places a bomb. P pauses, Q returns to the menu and T cycles the theme. Play never quits from here |
| Game.GameOverKey | src/game/game.py:250-255 | after game over R resets to the menu, Q quits, and every other key leaves the game alone |
| Game.HandleKey | src/game/game.py:183-257 | every key moves the state along the transition table and keeps the invariant. Q quits exactly in the menu and after game over. D and T cycle difficulty and theme, and arrows steer while running. B places a bomb while running, P toggles pause, and nothing else acts while paused. R after game over resets |
| Game.RestartGoesThroughMenu | src/game/game.py:248-252 | R after game over leads to the menu, and SPACE then starts play |
| Game.PauseResumeRoundTrip | src/game/game.py:225-247 | pausing and resuming gives back the same game |
| Game.MovedSnake | src/game/game.py:262-287 | the moved snake is well formed |
| Game.CollisionPhase | src/game/game.py:262-306 | a crash with the shield up drops the shield and play goes on. A crash without it ends the game, and without a crash nothing but the snake changes |
| Game.CrashWhenMoveLeavesWindow | src/game/game.py:286-290 | without wrap-around, a move that takes the head out of the window counts as a crash |
| Game.OutsideHeadCrashesAfterAnyKey | src/game/game.py:286-290 | a running game without wrap-around whose head has just left the window crashes on its next move, whatever key is pressed first |
| Game.ShieldOnlyPostponesWallDeath | src/game/game.py:286-296 | without wrap-around the shield only postpones a wall death: the tick it absorbs leaves the game running, and the next move of a still-running game crashes again |
| Game.LethalIsTenTickRadiusTest | src/game/game.py:620-622 | a radius-100 bomb kills a segment iff it is less than 10 ticks into its explosion and the segment is closer than 105 px |
| Game.StepBombs | src/game/game.py:615-642 | a hit is reported iff some updated bomb is lethal to a segment. Only active bombs remain. The allowance grows by the number of exploded bombs removed, capped at the maximum |
| Game.BombPhase | src/game/game.py:609-642 | the cooldown counts down to 0, the bombs are stepped, and a lethal bomb ends the game whatever the shield |
| Game.WithTargets | src/game/powerups.py:198-233 | writes back the three fields power-ups act on and nothing else |
| Game.PowerUpPhase | src/game/game.py:322-348 | the power-up phase changes only speed, shield, multiplier and power-up state. The multiplier stays 1.0 or 2.0, and no expired record remains |
| Game.PowerUpPhaseNeverRestores | src/game/game.py:322-348 | as written, with one clock reading, the phase never restores a field: the result is what collection left |
| Game.PowerUpPhaseOutcome | src/game/game.py:322-348 | as written, the shield is on afterwards iff it was on or a shield is picked up, and double score holds iff it held or is picked up |
| Game.ExpiredShieldOutlivesItsRecord | src/game/game.py:322-348 | a shield whose only record has expired stays on after the tick, although the record is gone |
| Game.PowerUpPhaseRestoring | src/game/powerups.py:218-235 | the corrected order, which the tick uses: it changes only speed, shield, multiplier and power-up state. The multiplier stays 1.0 or 2.0, and no expired record is left |
| Game.RestoringPicksUp | src/game/powerups.py:147-196 | removing records first does not change which item the head picks up |
| Game.RestoringPhaseShield | src/game/powerups.py:218-231 | with removal first, the shield is on afterwards iff it was on with no expired shield record, or a shield is picked up |
| Game.RestoringPhaseMultiplier | src/game/powerups.py:218-233 | with removal first, double score holds afterwards iff it held with no expired double-score record, or it is picked up |
| Game.PhaseOrdersAgreeWithoutExpiry | src/game/game.py:322-348 | when no effect record has expired, both orders give the same game |
| Game.RestoringPhaseEndsTheShield | src/game/powerups.py:230-231 | in the scenario where the tick as written keeps the shield, the corrected order turns it off |
| Game.PointsAreExact | src/game/game.py:366 | for the multipliers that occur the product 10 x m x d is whole, so truncation loses nothing, and a food is worth at least 5 |
| Game.DoubleScoreOnEasy | src/game/game.py:366 | double score on Easy gives 10 points per food |
| Game.FoodPhase | src/game/game.py:354-393 | reaching the food grows the snake, adds the points, moves the food off the snake and notes the time. Otherwise the combo resets once more than 2 s have passed since the last meal |
| Game.Tick | src/game/game.py:259-393 | outside RUNNING nothing changes. Otherwise, with power-up effects handled in the corrected order, the game ends iff the move crashed without a shield or a bomb reached the snake. The body is the moved snake, the heading is kept and the cooldown counts down. Eating adds the points at the multiplier after power-ups and moves the food off the snake. The invariant is kept |
| Game.TickPowerUpOutcome | src/game/game.py:292-348 | after a tick the shield is on iff it was on, survived the move and has no expired record, or a shield is picked up; double score holds iff it held with no expired record, or it is picked up |
| Game.TickAsWritten | src/game/game.py:259-393 | the tick with update, collection and removal in the game's order: nothing changes outside RUNNING, the game ends iff the move crashed without a shield or a bomb reached the snake, the body is the moved snake, eating adds the points, and the invariant is kept |
| Game.TickAsWrittenPowerUpOutcome | src/game/game.py:292-348 | in the game's order, the shield is on after a tick iff it was on and survived the move, or a shield is picked up; double score holds iff it held or is picked up, whatever records have expired |
| Game.TickOrdersAgreeWithoutExpiry | src/game/game.py:322-348 | the two ticks give the same game whenever no effect record has expired |
| Game.GameOverStillScores | src/game/game.py:290-393 | a fatal crash or bomb on the tick the food is reached still scores the food and grows the snake, because the tick does not stop at GAME_OVER |
| Game.GrowthIgnoresThePreset | src/game/game.py:149-155 | a run started on Easy is at speed 16 after five foods, above Easy's cap of 15 |
| LegacySnake.Lift | snake.py:12-22 | lifting then projecting gives back the legacy snake |
| LegacySnake.NewSnake | snake.py:12-22 | the legacy snake starts like the current one, without the cosmetic fields |
| LegacySnake.Move | snake.py:24-38 | the legacy move is the current move with the cosmetic fields forgotten |
| LegacySnake.ChangeDirection | snake.py:40-48 | the legacy turn is the current turn |
| LegacySnake.Grow | snake.py:50-54 | legacy growth is the current growth without combo and expression |
| LegacySnake.SelfCollision | snake.py:56-59 | the legacy self test is the current one |
| LegacySnake.WallCollision | snake.py:61-65 | the legacy wall test is the current one without wrap-around |
| LegacySnake.ProjectionCommutes | snake.py:24-65 | forgetting the cosmetic fields commutes with every snake operation |
| LegacyGame.Reset | game.py:55-61 | a reset starts running with score 0 and the food off the new snake, and the invariant holds |
| LegacyGame.HandleKey | game.py:63-94 | keys follow the legacy table: P toggles pause, arrows steer while running, and R after game over starts play at once. Q quits only after game over. The invariant is kept |
| LegacyGame.Update | game.py:96-116 | a crash ends the game. Food reached in the same tick is still eaten for 10 points. The body is the moved snake, and the food stays off the snake with the score at ten per segment grown |

## Left out

- Drawing, fonts, glow, particles, floating text, screen shake, the trail particle system and the HUD are not modelled. They do not influence the game state.
- Sound and music calls are not modelled; they produce no state.
- Window creation, fullscreen toggling (F), music toggles (M, N) and the quit event are not modelled. Those keys change no modelled state.
- The run loop and the frame clock are not modelled. The frame rate is the snake speed, and the model has one tick per call.
- The player-death explosion of `trigger_explosion` and `update_explosion` in src/game/game.py is visual only.
- `__init__` of src/game/game.py leaves snake and food as `None` until the first reset. This is modelled as `arena: Option<Arena>`.
- Game.Tick: runs the power-up calls in the corrected order (removal of expired effects first), not the game's order; `Game.TickAsWritten` is the tick in the game's order, and `Game.TickOrdersAgreeWithoutExpiry` shows the two differ only when a record has expired.
- Game.TickAsWritten: one clock reading serves the whole tick, where the game reads the clock separately in `update`, `check_collection`, `remove_effects` and for the combo. `PowerUps.UpdateHidesExpiredEffects` states what two different readings of `update` and `remove_effects` restore; the tick itself does not model them.
- Game.Tick: the draws must contain a cell off the snake when food is eaten. The game's loop retries without bound and would not end on a full board.
- Bombs.Update: particle positions, sizes and colours are abstracted to the longest remaining lifetime. Only that lifetime decides when a bomb goes inactive.
- Bombs.IsColliding: the floating-point square root is replaced by an exact comparison of squares. `Bombs.SquareTestMatchesSqrt` relates the two for an exact real root; rounding of the float root is not modelled.
- Themes: colour tables of the four themes are out of scope. A theme is its display name and a palette tag.
- src/config/config.py, which the current game imports, is not part of this model. Its constants are assumed equal to those of the top-level config.py, which the legacy game imports.
- The top-level food.py used by the legacy game is not part of this model. Its respawn is modelled as the first drawn cell off the snake, as in src/game/food.py.
- Difficulty: `max_speed` and `speed_increment` of the presets are carried but never read by the game, which is what `Game.GrowthIgnoresThePreset` shows.

## Findings

| source | as written | input that shows it | evidently intended | confidence | as-written member | corrected member |
|---|---|---|---|---|---|---|
| src/game/game.py:323-348 with src/game/powerups.py:162-166 | The manager update drops every effect record that has expired before `remove_effects` runs in the same tick, so `remove_effects` only sees a record whose end time falls between the two clock reads. Shield, double score and slow potion are in practice not switched off when their time is up. | A running game with the shield on, one shield record that ended before now, no items on the field and no spawn due: after the tick the record is gone and the shield is still on | expired effects restore the fields they changed: shield off after 3 s, multiplier back to 1.0 after 8 s, speed restored after 5 s | not executed | Game.ExpiredShieldOutlivesItsRecord | Game.RestoringPhaseShield |
