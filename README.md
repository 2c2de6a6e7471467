# Ball-Blast simulation core in Dafny

This project models the per-tick simulation of Ball-Blast, a browser arcade
game (`game.js`). A cannon at the bottom of the canvas fires bullet pairs upward.
Rocks fall under gravity and bounce off the walls, the ceiling and the surface.
A rock hit by bullets loses their strength, and the player's score gains it. A
depleted rock is removed. If it was strong enough for the current level, two
smaller rocks replace it. A rock touching the cannon restarts the game. The level
goes up each time the score reaches `200 * 2^levelFactor` exactly.

The project has four modules:

- `Bodies` (`bodies.dfy`) holds vectors and the shared body of every game object.
  That body is centre, velocity and acceleration, with Euler integration
  (`GameObject.update`). It also holds circles (rocks and bullets), rectangles
  (cannon and surface) and the collision tests between them.
- `GameRules` (`game_rules.dfy`) states one tick as functions on a `World` value.
  Each loop of `checkCollisions` becomes a recursive function whose loop index is
  a parameter. Removal during the pass therefore behaves exactly like the source's
  `splice` inside a forward loop. The element that moves into the freed slot is
  not visited in that pass. Children pushed during the rock loop are visited later
  in the same pass, unless a child lands in the freed slot, as the first child
  of the last rock does.
- `GameProperties` (`game_properties.dfy`) holds the lemmas about those functions.
- `GameEngine` (`game_engine.dfy`) holds the `Game` class. Its fields are updated
  in place by methods with `while` loops. Each method is proved to produce the
  state its `GameRules` function computes. `Update` also keeps the game
  invariant.

Numbers: positions, velocities and gravity are exact `real`s. Strengths, score,
the tick counter and `levelFactor` are `int`s. `Math.round(x)` is
`floor(x + 1/2)`. `radius / 1.4` is `radius * 5 / 7`. `Math.pow(2, levelFactor - 3)`
becomes the integer test `8 * originalStrength >= 50 * 2^levelFactor`, and
`SplitThresholdIsPowerTest` proves the two tests equal. The `interval % 5 == 0`
test gives the same answer for JavaScript's truncating `%` and Dafny's Euclidean
`%`, because both are zero at the same places. `ptDist` takes a square root. The
model instead compares squared distances, which is exact (`CircleTestIsDistanceTest`).

The random draws of `createRock` are a `RockDraw` parameter of `Update`. Colours
and images are opaque `Look` tags.

Three details of the code shape the model:

- The loops of `checkCollisions` splice at their own index and then advance it.
  The element that moves into the freed slot is skipped in that pass:
  `BulletSweep` and `HitSweep` spell this out along the original array.
- A new rock's height is drawn from `[rockRadius, width/2]`, using the canvas
  width.
- `update` moves the cannon first and only then checks collisions, so the clamp
  applies to the moved cannon.

The tick runs the circle–rectangle test exactly as `isCollideWithRect` writes
it (`CollidesWithRectAsWritten`), for both the cannon and the surface. The
corrected test is defined and proved beside it (see "## Findings").

## Model

| member | source | states |
|---|---|---|
| Bodies.Round | game.js:293-296 | `Math.round` lands within one half of its argument, rounding halves up |
| Bodies.Integrate | game.js:89-94 | one `update`: the velocity grows by exactly the acceleration, the centre moves by exactly the new velocity, the acceleration stays |
| Bodies.IntegrateSteps | game.js:89-94 | after n ticks: velocity is v + n·a, centre is c + n·v + n(n+1)/2·a, acceleration unchanged (n = 1 is one `update`) |
| Bodies.MakeCircle | game.js:98-103 | a new circle starts at full strength: strength and originalStrength both equal the given strength |
| Bodies.MakeRect | game.js:179-183 | a new rectangle starts at rest, with zero velocity and acceleration |
| Bodies.Depleted | game.js:151-157 | `isOut`: a circle is out exactly when its strength is at most zero |
| Bodies.CollidesWithCircle | game.js:143-149 | `isCollideWithCircle` without the square root; its meaning is stated by `CircleTestIsDistanceTest` |
| Bodies.CircleTestIsDistanceTest | game.js:143-149 | for the Euclidean distance d of the centres, the circle test holds iff d ≤ r1 + r2 |
| Bodies.CircleTestSymmetric | game.js:143-149 | the circle–circle test gives the same answer with its two circles swapped |
| Bodies.CollidesWithRectAsWritten | game.js:116-141 | `isCollideWithRect` as written, corner branch included; its meaning is stated by `RectTestAsWrittenIsBoundingBox` |
| Bodies.RectTestAsWrittenIsBoundingBox | game.js:116-141 | the test as written holds iff \|dx\| ≤ w/2 + r and \|dy\| ≤ h/2 + r, so its corner branch never rejects |
| Bodies.RectTestAsWrittenCounterexample | game.js:138-140 | a circle of radius 1 at (1.9, 1.9) against the 2×2 square at the origin: the test as written accepts it, the corrected test rejects it |
| Bodies.RectTestIsNearestPointTest | game.js:116-141 | for radius ≥ 0, the corrected test holds iff the nearest point of the rectangle is within the radius |
| Bodies.RectTestAsWrittenOverApproximates | game.js:116-141 | whatever the corrected test accepts, the test as written accepts too |
| GameRules.Remove | game.js:266 | `splice(i, 1)` shortens the array by exactly one |
| GameRules.RemoveShifts | game.js:266 | after `splice(i, 1)` the elements before i stay where they were and every later element moves down one place |
| GameRules.BulletPass | game.js:263-268 | the bullet loop never adds bullets and keeps every bullet alive if all were |
| GameRules.Hits | game.js:275-281 | the score gains exactly what the rock loses and what the removed bullets carried; rock fields other than strength are unchanged; with live bullets the score rises iff a bullet was removed |
| GameRules.Offspring | game.js:284-322 | the rocks a depleted rock leaves behind all have strength left |
| GameRules.SplitAllowed | game.js:285-288 | the split test of a depleted rock; equal to the `Math.pow` test by `SplitThresholdIsPowerTest` |
| GameRules.Children | game.js:289-321 | the two rocks a split pushes; stated by `ChildrenShape` |
| GameRules.Bounce | game.js:333-347 | a bounce changes only the velocity and keeps both of its magnitudes; the surface is tested with the test as written; when each component flips is stated by `BounceWhen` |
| GameRules.RockLoop | game.js:271-348 | the rock loop terminates although it appends during the pass; without a reset, the score gain equals the total strength of the bullets the rocks absorbed; live rocks and live bullets stay live (children always have strength left), and with live bullets the score does not drop; the cannon is tested with the test as written; what the pass does to the rocks is stated by `RockLoopWithoutBullets` and `DepletedRockLetsNextEscape` |
| GameRules.ClampCannon | game.js:350-356 | the clamp changes only the cannon's x coordinate |
| GameRules.ClampCannonInside | game.js:350-356 | a cannon of whole width that fits ends inside [0, width]; a cannon already inside is not moved |
| GameRules.StartWorld | game.js:239-259 | `start()`: score, tick counter and level zero, no rocks or bullets, surface and cannon at their start places; the reset lemmas below state what it means for a running game |
| GameRules.CheckCollisions | game.js:261-357 | the bullet pass, then the rock pass, then the reset or the updated fields, then the clamp; stated by the collision lemmas below and matched by `GameEngine.Game.CheckCollisions` |
| GameRules.BulletPair | game.js:409-437 | the two bullets `createBullet` pushes; their shape is stated by `BulletPairShape` |
| GameRules.NewRock | game.js:359-407 | the rock `createRock` pushes for given random draws; its shape is stated by `NewRockShape` |
| GameRules.Spawn | game.js:442-455 | the counter, bullet, rock and level step of `update`; stated by `SpawnSchedule` and `TickLevelStep` |
| GameRules.SpawnHeight | game.js:364-367 | for a height draw in [0, 1) the new rock's centre lies between one radius and width/2 below the top (width/2 − radius is a multiple of 1/2, so the rounding cannot overshoot) |
| GameRules.Tick | game.js:439-455 | `update` without its rescheduling: the collision step, then the counter, bullet, rock and level step (`Spawn`); stated by `TickSchedule`, `TickLevelStep` and `TickKeepsInvariant` |
| GameProperties.SplitThresholdIsPowerTest | game.js:286-287 | `originalStrength >= 50 * 2^(levelFactor-3)` in reals iff `8 * originalStrength >= 50 * 2^levelFactor` |
| GameProperties.ChildrenShape | game.js:289-321 | two children of radius round(r/1.4), placed symmetrically one child radius either side; they share half the original strength rounded up; velocities (-vx, -\|vy\|) and (vx, -\|vy\|); parent's acceleration; at least 50 strength each when the parent had ≥ 100; smaller than a parent of radius ≥ 2 |
| GameProperties.SplitExamples | game.js:285-288 | original strength 400 at level 0 splits into children of 200; strength 50 never splits; strength 100 splits at level 4, not at 5 |
| GameProperties.CollisionScoreIsAbsorbedStrength | game.js:261-348 | without a reset, the score gained by checkCollisions is the total strength of the bullets the rocks absorbed, and it is never negative |
| GameProperties.HitsTradeStrengthForScore | game.js:275-281 | against live bullets, the score gain = strength taken off the rock = strength of removed bullets ≥ 0, and a bullet was removed iff the rock lost strength |
| GameProperties.StartCannonFits | game.js:251-256 | the start cannon's width is a whole number that fits the canvas |
| GameProperties.StartCannonInside | game.js:251-256 | the start cannon lies inside the canvas |
| GameProperties.CannonHitResets | game.js:327-331 | once the rock pass reports a cannon hit, the collision step leaves exactly the start state: score, tick counter and level 0, no rocks or bullets, cannon and surface at start (that a touching rock causes the report is `RockLoopWithoutBullets`) |
| GameProperties.TouchingRockResets | game.js:327-331 | without bullets, a collision step in which some rock, once moved, touches the cannon ends in the start state |
| GameProperties.ResetTickIsFreshStart | game.js:439-455 | the tick that resets the game ends in the start state with the tick counter at 1 |
| GameProperties.BounceTwiceIsIdentity | game.js:333-347 | bouncing twice in the same place restores the velocity |
| GameProperties.BounceWhen | game.js:333-347 | the vertical velocity flips iff it is zero, the rock lies in the surface's box grown by its radius, or its centre is less than a radius below the top; the horizontal velocity flips iff it is zero or the rock pokes out of the left or right side |
| GameProperties.BulletPairShape | game.js:409-437 | two live bullets of strength 2·2^levelFactor, symmetric about the cannon, above its centre, flying straight up at speed 3 with no acceleration |
| GameProperties.NewRockShape | game.js:359-407 | a new rock has strength 50·2^levelFactor and radius round(width/10); it touches its starting wall and moves away at horizontal speed in [0.5, 1); its height lies in [radius, width/2]; vertical speed is in [-1, 1); acceleration is (0, 0.02); shade is one of five |
| GameProperties.TickKeepsInvariant | game.js:439-456 | every tick keeps every rock and bullet with strength in (0, originalStrength], the score non-negative, the counter in [0, 270) and the cannon's size, and leaves the cannon inside the canvas |
| GameProperties.CollisionsKeepInvariant | game.js:261-357 | the cannon move and collision step keep every rock and bullet with strength in (0, originalStrength], the score non-negative, the counter in range and the cannon's size, and leave the cannon inside the canvas |
| GameProperties.CollisionsKeepCounter | game.js:239-243 | the collision step leaves the tick counter alone unless it reset the game to zero |
| GameProperties.TickSchedule | game.js:443-451 | the counter becomes (counter + 1) mod 270; the cannon's `BulletPair` is appended iff the new counter is a multiple of 5; one `NewRock` of strength 50·2^levelFactor is appended iff it reaches 270; nothing else is appended; score, cannon and surface are those after the collision step |
| GameProperties.SpawnSchedule | game.js:442-451 | from any counter in [0, 270) the spawn step sets the counter to (counter + 1) mod 270, appends exactly the cannon's `BulletPair` iff the new counter is a multiple of 5 and exactly one `NewRock` iff it reaches 270, keeps the earlier rocks and bullets in place, and leaves score, cannon and surface alone |
| GameProperties.TickLevelStep | game.js:453-455 | per tick the level rises by at most one, and rises iff the score equals 200·2^levelFactor |
| GameProperties.BulletPassIsSweep | game.js:263-268 | the bullet loop equals the sweep along the original array: each visited bullet is moved; a gone one is dropped and the bullet behind it stays, unmoved; the rest keep their order |
| GameProperties.BulletPassMovesAll | game.js:263-268 | when no moved bullet is gone, every bullet is moved once and kept, in order |
| GameProperties.GoneBulletLetsNextEscape | game.js:263-268 | after a bullet leaves, the bullet behind it survives the pass unmoved, whatever it is |
| GameProperties.RockLoopWithoutBullets | game.js:271-348 | without bullets, the rock loop from index i resets iff some rock it visits touches the cannon once moved; otherwise each visited rock is moved once and then bounced, in order, and the score stays |
| GameProperties.DepletedRockLetsNextEscape | game.js:271-324 | a rock depleted by a bullet and not allowed to split is spliced out, and the rock behind it ends the pass unmoved and untested |
| GameProperties.HitsIsSweep | game.js:275-281 | the inner loop equals the sweep along the original bullets: a touching bullet is dropped and the one behind it is not tested in that pass |
| GameProperties.HitsRemoveOnlyTouching | game.js:275-281 | the bullets left are a sub-multiset of the input, and every bullet removed touches the rock |
| GameProperties.RockLoopKeepsIntact | game.js:271-348 | the rock loop leaves no rock or bullet stronger than it started |
| GameProperties.CollisionsKeepStrengthBounds | game.js:261-357 | the collision step keeps every strength within its start and the score non-negative |
| GameEngine.Game.constructor | game.js:201-237 | a new game is in the start state (together with the `start()` that `onload` calls) and satisfies the invariant |
| GameEngine.Game.Start | game.js:239-259 | the state becomes the start state |
| GameEngine.Game.CheckCollisions | game.js:261-357 | the new state is `GameRules.CheckCollisions` of the old one |
| GameEngine.Game.MoveBullets | game.js:262-268 | the bullets become `BulletPass` of the old bullets |
| GameEngine.Game.MoveRocks | game.js:270-348 | the state after the rock loop is what `RockLoop` computes, or the start state when the loop hit the cannon |
| GameEngine.Game.SpliceOut | game.js:283-324 | the rocks become the old rocks with the depleted rock's offspring appended (its two children iff the split test passes, otherwise none) and with rock k spliced out |
| GameEngine.Game.HitBullets | game.js:275-281 | rock k, the bullets and the score become what `Hits` computes |
| GameEngine.Game.KeepCannonInside | game.js:350-356 | the cannon becomes `ClampCannon` of the old cannon |
| GameEngine.Game.CreateBullet | game.js:409-437 | the bullet pair is appended to the bullets |
| GameEngine.Game.CreateRock | game.js:359-407 | one new rock is appended to the rocks |
| GameEngine.Game.Update | game.js:439-456 | the new state is `Tick` of the old one; the invariant is kept and the cannon is inside the canvas |
| GameEngine.Game.SetDirection | game.js:496-503 | key 37 sets the cannon's velocity to (-2, 0) and key 39 to (2, 0); other keys and all other fields are left alone |
| GameEngine.Game.StopMotion | game.js:505-509 | key 37 or 39 sets the cannon's velocity to (0, 0); other keys and all other fields are left alone |

## Findings

| source | as written | input that shows it | evidently intended | confidence | as-written member | corrected member |
|---|---|---|---|---|---|---|
| game.js:138-140 | the corner test computes `(dx - w/2)^2 - (dy - h/2)^2 <= r^2`, which always holds once the earlier checks pass, so the circle–rectangle test is a plain bounding-box test | circle of radius 1 centred at (1.9, 1.9) against a 2×2 rectangle centred at the origin: reported as touching, though its nearest corner is 0.9·√2 ≈ 1.27 away | `(dx - w/2)^2 + (dy - h/2)^2 <= r^2`: the circle reaches the rectangle's nearest corner | not executed; high | `Bodies.CollidesWithRectAsWritten` (`Bodies.RectTestAsWrittenCounterexample`, `Bodies.RectTestAsWrittenIsBoundingBox`) | `Bodies.CollidesWithRect` (`Bodies.RectTestIsNearestPointTest`, `Bodies.RectTestAsWrittenOverApproximates`) |

## Left out

- RockLoop: the movement, bounce and reset of every visited rock are characterised in full only for a pass without bullets (`RockLoopWithoutBullets`). With bullets the skip after a splice is shown by `DepletedRockLetsNextEscape`, and the rest is given by the function itself, because a reference reading of the whole pass would have to replay the hits and the children pushed during it.
- `setZeroTimeout` and its message-event handling (game.js:1-23): browser scheduling.
- `loadImages` (game.js:25-40): asynchronous image loading.
- All drawing: `Circle.draw` and `drawStrength`, `Rect.draw` and `returnDrawingCoordinates`, and `Game.display`. They only write to the canvas.
- The re-scheduling at the end of `Game.update` and `speed`/`FPS` (game.js:42, 60-62, 457-466). One call of `Update` is one tick.
- Event-listener registration and `window.onload` (game.js:203-204, 512-518). The key handlers are modelled as methods taking the key code.
- The canvas and drawing-context fields of the `Game` constructor. Before `start()` the source leaves `cannon` and `surface` undefined. The model's constructor gives them their start values, as the `start()` that `onload` calls next would.
- `isCollideWithObject` (game.js:105-114): it refers to undefined variables and is never called.
- `vecDot`, `vecSlope` and `rotatePoint` (game.js:75-82): never called by the simulation.
- `Math.random`: its five draws in `createRock` are the `RockDraw` argument of `Update`.
- IEEE floating-point rounding: positions, velocities, `radius / 1.4` and `Math.pow` are exact reals. `ptDist`'s square root is replaced by the equivalent squared comparison.
- Colours and images are opaque tags. `colors.bg`, used for the surface, is undefined in the source; the model gives the surface its own tag.
- Aliasing of arrays between objects is not modelled. Examples are all bullets sharing `bulletVelocity`, and children sharing the parent's acceleration. Bodies are values here. Shared arrays could only matter if they were mutated, and the only in-place change (`update` adding the acceleration) adds zero to bullets.
- `GameRules.ClampCannonInside`: its guarantee needs a cannon of whole width that is either narrower than the canvas or exactly as wide with an even width. An odd width equal to the canvas width would end half a unit outside. The game's cannon (`round(width/6)`) always fits (`GameProperties.StartCannonFits`).
- The end-to-end behaviour over many ticks is given only tick by tick (`TickSchedule`, `TickKeepsInvariant`), not as a lemma about 270 consecutive ticks.
