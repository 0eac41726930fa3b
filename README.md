# Aircraft Bubble Shooter — a verified model of the frame simulation

The game is a single React component (`Game/src/App.jsx`). An aircraft at the bottom
of a 900×600 arena moves left and right while the arrow keys are held. It fires a
bullet upward when the space bar is held, at most one every 15 frames
(`Entities.ShotSpacing`). Red bubbles
fall from the top; a bullet whose base midpoint lies inside a bubble destroys it for a
point. A one-second timer counts 60 seconds down and then ends the game, and a
restart button resets everything.

The model covers everything in the component that computes: the per-frame `update`
(movement, firing and cooldown, bullet and bubble advance and filtering, the
splice-based collision pass, random spawning), `getRandomX`/`spawnBubble`, the
`gameOver` guard of `gameLoop`, the timer's `setTimeLeft` updater and
`handleRestart`.

Modules, one per component of the simulation:

- `Sequences` (`sequences.dfy`): the array operations the code uses, `splice(k, 1)`
  (`RemoveAt`) and `filter` (`Filter`). It also defines the subsequence relation
  used to say that survivors keep their relative order.
- `Entities` (`entities.dfy`): the constants, the `Bullet` and `Bubble` records, the
  per-frame inputs (held keys, random draws) and the rules for one entity at a time:
  steering, the cooldown, bullet and bubble movement, the on-screen tests, the
  spawned bubble and the hit test.
- `Collision` (`collision.dfy`): the nested collision loop as a recursive
  specification that follows the code exactly, with its lemmas.
- `Simulation` (`simulation.dfy`): the whole state as a `World` value. It defines what
  a frame, a timer tick and a restart do to it, the invariant every reachable state
  satisfies, and runs of any interleaving of those events.
- `Game` (`game.dfy`): the state as a class whose fields the methods update in
  place. The `forEach` loops are `while` loops in `Game` methods, with
  `splice` as `RemoveAt` inside them and `filter` as `Filter`. Each method is proved equal to the matching `Simulation` function.

Modelling choices:

- Held keys are three booleans per frame.
- The four `Math.random()` values of a frame are a `Draws` parameter, each in
  [0, 1). They come in the order the code draws them: spawn test, x, radius, speed.
- `Math.sqrt(dx*dx + dy*dy) < r` becomes `0 < r && dx*dx + dy*dy < r*r`.
  `Entities.RootComparison` proves the two agree.
- Coordinates are exact `real`s and the aircraft position an `int`.
- `score` and `timeLeft` are plain fields that are updated immediately.
- Bullets and bubbles are values stored in `seq` fields. In the code, each such
  object is referenced only from its array, plus the read-only `bullet` binding of the
  collision pass. So identity never matters.

Behaviour of the code worth knowing:

- **The aircraft is not confined to [0, 860].** Each guard tests the position
  *before* the 7-unit move. Starting from 430, holding one arrow ends at −4 or 864
  (`Entities.SteerOvershoots`). The real invariant is −7 < x < 867 on the grid 430 + 7k
  (`Simulation.AircraftStaysNearArena`).
- **The collision pass splices while it iterates.** The bullet read at outer index
  `bi` keeps scoring after it has been spliced out, and each further hit splices
  whatever bullet now sits at `bi` (`Collision.SplicedBulletScoresAgain`). A
  bullet that shifts onto the outer index just examined is not tested again in that
  pass (`Collision.ShiftedBulletSkipped`). A bubble that shifts onto the inner index
  just examined is skipped only by the current bullet; later bullets still test it
  (`Collision.ShiftedBubbleRetested`). What does hold: each point removes exactly one
  bubble, and k points remove between 1 and k bullets (`Collision.Collide`).
- **A new bubble starts at y = −15 (the base radius), whatever its own radius.** Its
  x keeps a base-radius bubble inside the arena, not one of its actual radius.
- **Removal thresholds.** A bullet is dropped once y + 16 ≤ 0. A bubble is dropped
  once y − radius ≥ 600. Both include the equality case.
- **The cooldown is reset every time `gameOver` changes.** The game-loop effect
  depends on `gameOver`, and each re-run starts a fresh `shootCooldown` of 0. So it
  resets both when the timer ends the game and when a restart resumes it. The timer
  interval is also re-created, so ticks continue after the game is over, and at 0
  they change nothing.

## Model

| member | source | states |
|---|---|---|
| Sequences.RemoveAt | Game/src/App.jsx:94-95 | `splice(k, 1)` shortens the array by one and shifts the later elements down when k is in range, and changes nothing otherwise |
| Sequences.Filter | Game/src/App.jsx:79-83 | the filtered array is no longer than the input, and everything in it comes from the input and passes the predicate |
| Sequences.FilterSelects | Game/src/App.jsx:79-83 | `filter` keeps exactly the elements that pass: an index of the input appears in the result iff its element passes, and the survivors keep their order |
| Sequences.RemoveAtSubsequence | Game/src/App.jsx:94-95 | `splice(k, 1)` leaves the remaining elements in their original order |
| Entities.Steer | Game/src/App.jsx:61-66 | one frame moves the aircraft by −7, 0 or +7 and keeps x mod 7; it ends left of x iff left is held with x > 0 and the right move (right held, x − 7 < 860) does not cancel it; it ends right of x iff right is held with x < 860 and left is not also moving it; the interval (−7, 867) is preserved |
| Entities.SteerOvershoots | Game/src/App.jsx:61-66 | from the start position 430, holding left reaches −4 and stays there, and holding right reaches 864 and stays there |
| Entities.NextCooldown | Game/src/App.jsx:68-75 | a shot sets the end-of-frame cooldown to 14; otherwise a positive cooldown drops by one and a non-positive one is kept; a cooldown in [0, 15] ends the frame in [0, 14] |
| Entities.Muzzle | Game/src/App.jsx:69-72 | a bullet is fired at (x + 16, y − 8) |
| Entities.HeldCooldownAt | Game/src/App.jsx:68-75 | with fire held from a cooldown of 0, frame 15q + m begins with the cooldown at 0 if m = 0, and at 15 − m otherwise |
| Entities.HeldFireEvery15 | Game/src/App.jsx:68-75 | with fire held continuously from a cooldown of 0 (mount or a finished game's restart), a shot leaves on frame n iff n is a multiple of 15 |
| Entities.HeldCountdown | Game/src/App.jsx:75-75 | a cooldown c runs down by exactly one per frame for its first c frames while fire is held |
| Entities.HeldShift | Game/src/App.jsx:68-75 | holding for m + k frames is holding for m frames and then k more from the cooldown reached |
| Entities.HeldFireFrom | Game/src/App.jsx:68-75 | from any cooldown c ≥ 0, a held trigger fires on frame n iff n ≥ c and n − c is a multiple of 15 |
| Entities.FramesCountdown | Game/src/App.jsx:68-75 | whatever keys are held, a cooldown c ≥ k is c − k after k frames |
| Entities.ShotSpacing | Game/src/App.jsx:68-75 | whatever keys are held, the 14 frames after a shot begin with a positive cooldown, so none of them fires, and the 15th begins at 0 |
| Entities.Rise | Game/src/App.jsx:78-78 | a bullet's y decreases by exactly 12 and its x is unchanged |
| Entities.Fall | Game/src/App.jsx:82-82 | a bubble's y increases by its own speed, and x, radius and speed are unchanged |
| Entities.BulletOnScreen | Game/src/App.jsx:79-79 | a bullet with y ≥ 0 is kept, and a dropped bullet would stay off screen after a further rise |
| Entities.BubbleOnScreen | Game/src/App.jsx:83-83 | a bubble with radius ≥ 0 whose centre is above the bottom edge is kept, and a dropped bubble with speed ≥ 0 would stay off screen after a further fall (every spawned bubble has positive radius and speed) |
| Entities.RandomX | Game/src/App.jsx:12-14 | `getRandomX` lies in [15, 885) for every draw in [0, 1) |
| Entities.NewBubble | Game/src/App.jsx:50-57 | a spawned bubble has y = −15, x in [15, 885), radius in [15, 25) and speed in [1, 2.5) |
| Entities.Hits | Game/src/App.jsx:89-92 | a hit needs a positive radius and puts the midpoint of the bullet's base (x + 4, y) strictly inside the bubble's bounding square |
| Entities.RootComparison | Game/src/App.jsx:91-92 | for a non-negative root d of a squared distance, d < r iff r > 0 and the square is below r² |
| Entities.HitsIsRootComparison | Game/src/App.jsx:89-92 | the squared hit test is true exactly when the code's `Math.sqrt` distance from the midpoint of the bullet's base (x + 4, y) is below the bubble's radius |
| Collision.SweepBubbles | Game/src/App.jsx:87-97 | for one bullet, the inner pass removes one bubble per point scored and at most one bullet per point, and when the bullet's index is in range a point removes at least one bullet |
| Collision.SweepBullets | Game/src/App.jsx:86-98 | from any outer index, the pass removes one bubble per point scored and at most one bullet per point, and it removes at least one bullet whenever it scores |
| Collision.Collide | Game/src/App.jsx:86-98 | the score never falls; it rises by exactly the number of bubbles removed; a rise of k ≥ 1 removes between 1 and k bullets |
| Collision.SweepBubblesKeepsOrder | Game/src/App.jsx:87-97 | in the inner pass, the surviving bullets and bubbles keep their relative order |
| Collision.SweepBulletsKeepsOrder | Game/src/App.jsx:86-98 | from any outer index, the surviving bullets and bubbles keep their relative order |
| Collision.CollideKeepsOrder | Game/src/App.jsx:86-98 | across the whole pass, the surviving bullets and bubbles keep their relative order, and every surviving bubble comes from the input |
| Collision.SweepBubblesQuiet | Game/src/App.jsx:87-97 | the inner pass scores nothing iff no remaining bubble is hit by the bullet, and then it changes nothing |
| Collision.SweepBulletsQuiet | Game/src/App.jsx:86-98 | from any outer index, the pass scores nothing iff no remaining pair overlaps, and then it changes nothing |
| Collision.CollideQuiet | Game/src/App.jsx:86-98 | the pass scores nothing iff no bullet/bubble pair satisfies (b.x + 4 − c.x)² + (b.y − c.y)² < c.r², and then both arrays are unchanged |
| Collision.OneOnOne | Game/src/App.jsx:86-98 | one bullet and one bubble: if they overlap, both vanish and the score rises by 1; otherwise nothing changes |
| Collision.SplicedBulletScoresAgain | Game/src/App.jsx:86-98 | one bullet over the first and third of three bubbles destroys both, scores 2, and leaves the middle bubble untested |
| Collision.ShiftedBubbleRetested | Game/src/App.jsx:86-98 | after the first bullet hits the first bubble, the second bubble shifts onto index 0 and is skipped by that bullet, but a later bullet over it still destroys it: bullets [b0, b1, b2] and bubbles [u0, u1] end as ([b1], [], 2) |
| Collision.ShiftedBulletSkipped | Game/src/App.jsx:86-98 | after the first bullet hits the first bubble, the second bullet shifts onto index 0, is never tested, and survives |
| Simulation.Shoot | Game/src/App.jsx:68-74 | a bullet at (x + 16, y − 8) is appended at the end exactly when fire is held and the cooldown is ≤ 0; otherwise the bullets are unchanged |
| Simulation.RiseAll | Game/src/App.jsx:78-78 | the bullet `forEach` keeps the length, keeps every x, and lowers every y by exactly 12 |
| Simulation.FallAll | Game/src/App.jsx:82-82 | the bubble `forEach` keeps the length and moves every bubble down by its own speed |
| Simulation.StepBullets | Game/src/App.jsx:78-79 | the bullet step adds no bullet, and every bullet it keeps has its tail below the top edge (y + 16 > 0) |
| Simulation.BulletsStep | Game/src/App.jsx:78-79 | the bullets after the step are exactly the moved bullets whose tail is still below the top edge (new y + 16 > 0), in their original order |
| Simulation.StepBubbles | Game/src/App.jsx:82-83 | the bubble step adds no bubble, and every bubble it keeps has its top above the bottom edge (y − radius < 600) |
| Simulation.BubblesStep | Game/src/App.jsx:82-83 | the bubbles after the step are exactly the moved bubbles whose top is still above the bottom (new y − radius < 600), in their original order |
| Simulation.Spawn | Game/src/App.jsx:101-103 | at most one bubble is added, at the end, and only when the draw is < 0.03; the existing bubbles stay in front; the new one is spawnable with y = −15 |
| Simulation.Move | Game/src/App.jsx:61-83 | the movement phase keeps the aircraft's y, the score, the timer and the phase; the aircraft steers first, the shot leaves from the moved x and rises in the same frame (bullets = bullet step of the shot list), the cooldown is `NextCooldown`, and the bubbles are the bubble step, so none is added |
| Simulation.Resolve | Game/src/App.jsx:86-98 | the collision pass changes only bullets, bubbles and score; the score rises by exactly the number of bubbles removed; survivors keep their order |
| Simulation.Frame | Game/src/App.jsx:157-158 | a frame taken while the game is over changes nothing, and otherwise it is one `update` |
| Simulation.Step | Game/src/App.jsx:59-104 | a frame leaves the aircraft's y, the timer and the phase alone, never lowers the score, and raises it by exactly the number of bubbles the collision pass removed |
| Simulation.StepWithoutHits | Game/src/App.jsx:86-98 | if no moved bullet overlaps a moved bubble, the frame scores nothing and the collision pass leaves both arrays as the movement left them |
| Simulation.Initial | Game/src/App.jsx:18-25 | the mounted state: aircraft at (430, 550), cooldown 0, no bullets or bubbles, score 0, 60 seconds, running; it satisfies the invariant |
| Simulation.NextTime | Game/src/App.jsx:166-172 | the updater never returns a negative value: t > 1 maps to t − 1, and t ≤ 1 maps to 0 |
| Simulation.Tick | Game/src/App.jsx:165-173 | a tick sets timeLeft by the updater and sets gameOver once t ≤ 1; the cooldown becomes 0 only on the tick that ends a running game (the effect re-runs); nothing else changes |
| Simulation.Countdown | Game/src/App.jsx:165-173 | from t ≥ 1 seconds with the game running, n ≤ t ticks leave t − n seconds, and the game is over exactly at the t-th tick |
| Simulation.MatchLasts60Ticks | Game/src/App.jsx:165-173 | from mount, the game runs for ticks 0…59 with 60 − n seconds left, and the 60th tick reaches 0 and game over |
| Simulation.TickWhenOver | Game/src/App.jsx:166-170 | a tick at 0 seconds with the game over changes nothing |
| Simulation.Restart | Game/src/App.jsx:182-190 | a restart gives score 0, 60 seconds, game running, no bullets or bubbles, and the aircraft at (430, 550); when the game was over, the cooldown is 0, and otherwise it is kept |
| Simulation.RestartWhenOver | Game/src/App.jsx:182-190 | restarting a finished game gives exactly the state at mount |
| Simulation.StepInvariant | Game/src/App.jsx:59-104 | a frame preserves the invariant: aircraft bounds and grid, y = 550, cooldown in [0, 14], timer in [0, 60] and 0 exactly when over, and every bubble's x, radius and speed within its spawn bounds |
| Simulation.RunInvariant | Game/src/App.jsx:156-190 | any interleaving of frames, ticks and restarts preserves the invariant |
| Simulation.AircraftStaysNearArena | Game/src/App.jsx:61-66 | after any sequence of events from mount: x in (−7, 867), x ≡ 3 (mod 7), y = 550, cooldown in [0, 14], timeLeft in [0, 60] |
| Game.Game.constructor | Game/src/App.jsx:18-25 | the mounted state: aircraft at (430, 550), no entities, score 0, 60 seconds, running, cooldown 0 |
| Game.Game.AdvanceBullets | Game/src/App.jsx:78-79 | the in-place loop plus `filter` leaves exactly the bullet step of the old bullets |
| Game.Game.AdvanceBubbles | Game/src/App.jsx:82-83 | the in-place loop plus `filter` leaves exactly the bubble step of the old bubbles |
| Game.Game.HitBubbles | Game/src/App.jsx:87-97 | the inner loop with its splices ends in the state the inner pass specifies |
| Game.Game.ResolveCollisions | Game/src/App.jsx:86-98 | the nested loops with their splices end with bullets, bubbles and score as `Collide` specifies; nothing else changes |
| Game.Game.SpawnBubble | Game/src/App.jsx:50-57 | `spawnBubble` pushes exactly the new bubble at the end |
| Game.Game.SteerAndShoot | Game/src/App.jsx:61-75 | the aircraft moves as `Steer`, the bullets gain the shot from `Shoot`, and the cooldown becomes `NextCooldown` |
| Game.Game.MoveEntities | Game/src/App.jsx:61-83 | everything before the collision pass matches the movement phase of a frame |
| Game.Game.Update | Game/src/App.jsx:59-104 | `update` changes the state exactly as one frame step does and preserves the invariant |
| Game.Game.GameLoop | Game/src/App.jsx:156-158 | with the game over, the object is left unchanged; otherwise one `update` runs |
| Game.Game.TimerTick | Game/src/App.jsx:165-173 | the timer callback changes the state exactly as one tick does and preserves the invariant |
| Game.Game.HandleRestart | Game/src/App.jsx:182-190 | a restart changes the state as `Restart` does; after a finished game this is exactly the mounted state |

## Left out

- `draw` (Game/src/App.jsx:106-154) and the JSX markup (192-215): rendering only, with no effect on the state.
- The keyboard listeners (29-42): input plumbing. Each frame takes the held keys as three booleans.
- `requestAnimationFrame`, `setInterval`, effect cleanup and the unused `lastTime` (47, 156-162, 175-179): scheduling. Frames, ticks and restarts are separate events in any order (`Simulation.Run`). A frame scheduled before React has re-run the effect is not modelled: the guard reads the current `gameOver`.
- React's asynchronous batching of `setScore`/`setTimeLeft`/`setGameOver`: those values are plain fields, updated immediately.
- `Math.random` and `Math.sqrt`: draws are parameters in [0, 1), and the hit test is the squared comparison (proved equivalent).
- IEEE double rounding: coordinates are exact reals.
- Game.Game.HandleRestart: when called while the game is running, it does not reset the cooldown, because no effect re-runs then. The button is shown only after the game is over, and then the restart gives exactly the mounted state.
