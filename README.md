# Maze-Runner lane-dodging game: a Dafny model of its simulation

The game (`game.js`) is a Three.js endless runner. The corridor is
`2 * WORLD_HALF` wide and split into seven lanes. Rows of cubes spawn far ahead
at `SPAWN_Z` and race towards the player at `BASE_SPEED` times a difficulty
multiplier. That multiplier grows with the elapsed time up to 1.5. The player
slides left and right with the arrow keys or A/D and stays clamped inside the
corridor. The score grows with time and with the multiplier. A cube that
overlaps the player's hitbox ends the game, and R restarts a lost game.

The model has three modules:

- `World` (`world.dfy`) holds the constants, the lane geometry
  (`LaneCenterX`), the multiplier (`SpeedMultiplier`), the per-frame score
  gain and the table of fifteen obstacle rows (`Patterns`).
- `Motion` (`motion.dfy`) holds the per-frame motion as functions on values:
  - the player's step, `PlayerStep`;
  - the obstacles' advance, `Advance`;
  - the removal filter, `Survivors`, and `Array.prototype.splice`, `Splice`;
  - the hit test, `Hits` and `Collides`.
  An obstacle is the record `{x, z, mesh}`, and a mesh is an object of the
  field-less class `Mesh`, so only its identity matters.
- `Game` (`game.dfy`) holds the class `GameState`, the one `state` record.
  - Its fields are those of the record, and `obstacles` and `obstacleMeshes`
    are `seq` fields that the methods reassign.
  - `resetGame`, `spawnPatternRow`, `updatePlayer`, `updateObstacles`,
    `checkCollisions`, the frame loop `tick` and the two key handlers are
    methods.
  - `updatePlayer`, `updateObstacles`, `checkCollisions` and `tick` are
    proved against `PlayerStep`, `Advance`/`Survivors` and `Collides`, and
    `spawnPatternRow` against `SpawnedRow`.
  - `resetGame` and the key handlers state every field they set or keep.
  - The loops of `spawnPatternRow`, `updateObstacles` and `checkCollisions`
    are loops in the model too.
  - `Valid()` is what holds between frames:
    - the game is running exactly when it is not lost;
    - the player is inside `[MinX, MaxX]`;
    - the clock and the score are not negative;
    - the spawn timer is in `[0, SPAWN_EVERY)`;
    - the two obstacle lists line up entry by entry;
    - every obstacle sits on an inner lane and has not passed depth 15.
  - `RanFrame` is the two-state relation that one running frame establishes.

`updateObstacles` is proved as its two loops:

- `MoveObstacles` moves every cube and collects the indices past depth 15. The
  result equals `PassedIndices`, whose meaning two lemmas state.
- `SpliceOut` splices those indices out of both lists, last one first. The
  result is `Survivors` of the moved list.

The running branch of `tick` is proved as its two halves:

- `AdvanceClocks` covers the clock, the score and the spawn.
- `StepWorld` covers the player, the obstacles and the collision test.

Three behaviours of the code are worth stating on their own:

- The code spawns at most one row per frame (`if`, not a loop).
- R restarts only a lost game.
- A frame is capped at 0.05 s, so one frame cannot reach the 1.35 s spawn
  interval from a fresh timer.

The table's comment claims that the edge lanes leave a way past every row. The
model proves the edge lanes are never blocked. It also proves that the row
`[1, 3, 5]` cannot be dodged: while the row crosses the player's depth band,
the player clamp keeps the player's hitbox from clearing lane 1 or lane 5
(`RowOneThreeFiveUnavoidable`).

## Model

| member | source | states |
|---|---|---|
| World.LaneCenterX | game.js:71-73 | the centre of lane `i` is `i - 3`, lies strictly inside lane `i`'s bounds, and lies strictly inside the corridor for lanes 0..6 |
| World.LaneCenterStrictlyIncreasing | game.js:71-73 | the centres of two lanes are at least one lane width apart, in lane order |
| World.SpeedMultiplier | game.js:167-169 | the multiplier never exceeds 1.5, is at least 1 for non-negative elapsed time, and is either the cap or `1 + 0.015 * elapsed` |
| World.SpeedMultiplierMonotone | game.js:167-169 | the multiplier never decreases as elapsed time grows |
| World.SpeedMultiplierSaturates | game.js:167-169 | once `0.015 * elapsed >= 0.5` the multiplier equals the cap 1.5 |
| World.ScoreGain | game.js:274 | the score gained by a frame of `dt` seconds at non-negative elapsed time is between `40 * dt` and `60 * dt` points |
| World.Min | game.js:168 | `Math.min` returns the smaller argument, which is one of the two |
| World.PatternTableWellFormed | game.js:33-51 | every row of the table blocks one to three distinct lanes, listed left to right, all within lanes 1..5 |
| World.PatternLanesInside | game.js:33-51 | no row blocks lane 0 or lane 6; every blocked centre lies more than a lane width inside the walls |
| Motion.Clamp | game.js:186 | `Math.max(lo, Math.min(hi, x))` is within `[lo, hi]`, is `x` when `x` is in range, and is the nearer bound otherwise |
| Motion.PlayerStep | game.js:183-186 | the player ends inside `[MinX, MaxX]`; no key leaves an in-range player where it is; both keys cancel to a clamp; one key moves only in its direction, by exactly `speed * dt` when that stays in range |
| Motion.Advance | game.js:193-196 | every obstacle keeps its lane position and mesh and moves `speed * dt` in depth; the list keeps its length and order |
| Motion.Survivors | game.js:197-207 | the filtered list is no longer than the input and everything in it has depth at most 15 |
| Motion.SurvivorsAppend | game.js:199-207 | filtering a concatenation is the concatenation of the filtered parts, so survivors keep their relative order |
| Motion.SurvivorsAllKept | game.js:197 | when nothing has passed depth 15, nothing is removed |
| Motion.SurvivorsExactly | game.js:197-207 | each obstacle with depth at most 15 occurs as often after the filter as before, and each deeper one not at all |
| Motion.SurvivorsMembership | game.js:197-207 | an obstacle survives exactly when it was present and has depth at most 15 |
| Motion.Splice | game.js:205-206 | `splice(idx, 1)` drops entry `idx`: entries before it stay, later entries shift down by one |
| Motion.SpliceAligned | game.js:205-206 | splicing the same index out of both aligned lists keeps them aligned |
| Motion.SpliceStep | game.js:199-206 | splicing out a passed index, with nothing passed between it and the filtered tail, extends the filtered tail down to that index |
| Motion.SurvivorsFrom | game.js:199-207 | when nothing before `lo` passed, the unfiltered prefix up to `lo` followed by the filtered rest is the whole filtered list |
| Motion.Abs | game.js:217 | `Math.abs` is non-negative and is `r` or `-r` |
| Motion.Hits | game.js:216-218 | an obstacle hits exactly when the loop does not skip it for depth and `Math.abs` of its lateral offset is below the player's half-width plus half a cube |
| Motion.Collides | game.js:215-223 | the player collides exactly when some obstacle in the list hits |
| Motion.InLineCollides | game.js:215-222 | a cube in the player's depth band and exactly in line with the player is a collision |
| Motion.RowOneThreeFiveUnavoidable | game.js:33-37 | wherever the clamped player stands, the row `[1, 3, 5]` overlaps the player while its cubes are inside the player's depth band |
| Game.SpawnedRowInside | game.js:171-180 | a spawned row has one to three cubes, each centred on an inner lane strictly inside the corridor |
| Game.SurvivorsStayOnLanes | game.js:190-207 | moving and pruning keeps every obstacle on an inner lane |
| Game.PassedIndices | game.js:192-198 | the list of passed indices below `n` has at most `n` entries |
| Game.PassedIndicesMembership | game.js:193-197 | an index is collected exactly when it is below `n` and its obstacle's new depth exceeds 15 |
| Game.PassedIndicesIncreasing | game.js:193-197 | the collected indices are below `n` and strictly increasing |
| Game.LastPassed | game.js:199-200 | the last collected index passed, nothing after it passed, and the indices before it are exactly those collected below it |
| Game.NonePassed | game.js:199 | an empty collection below `hi` means nothing below `hi` passed |
| Game.SpliceOutStep | game.js:199-207 | one iteration of the back-to-front removal keeps the filtered-tail invariant, the remaining indices and the alignment |
| Game.GameState.constructor | game.js:53-65 | the initial record followed by the reset at load: a valid, freshly started game with no keys held and player speed 5 |
| Game.GameState.Reset | game.js:150-165 | running, not over, score, clock, spawn timer and player position zero, both lists empty; key flags and player speed kept |
| Game.GameState.SpawnPatternRow | game.js:171-181 | appends one cube per lane of the picked pattern, in lane order, at the lane centre and `SPAWN_Z`, each with its own new mesh (fresh and distinct from the others) appended alongside |
| Game.GameState.UpdatePlayer | game.js:183-188 | the new position is `PlayerStep` of the old one with the held keys and the player speed |
| Game.GameState.UpdateObstacles | game.js:190-208 | the obstacle list becomes `Survivors(Advance(old, 16 * multiplier, dt))` and the mesh list stays aligned with it |
| Game.GameState.MoveObstacles | game.js:191-198 | the first loop moves every obstacle as `Advance` does and collects exactly `PassedIndices` of the moved list |
| Game.GameState.SpliceOut | game.js:199-207 | the second loop leaves exactly the filtered list and keeps the mesh list aligned |
| Game.GameState.CheckCollisions | game.js:210-224 | the game ends (over, not running) if some obstacle overlaps the player; otherwise nothing changes |
| Game.GameState.Tick | game.js:267-286 | the frame is capped at 0.05 s; a stopped game is left unchanged and spawns nothing; a running game takes one `RanFrame` step; `Valid` is preserved and the score and clock never decrease |
| Game.GameState.RunFrame | game.js:272-283 | the running branch: the clock advances by `dt`, the score by `ScoreGain` at the new multiplier, and at most one row spawns; the obstacles move with that same multiplier; the game is over exactly when an obstacle then overlaps the player |
| Game.GameState.AdvanceClocks | game.js:273-279 | clock plus `dt`; score plus `ScoreGain`; the timer wraps by `SPAWN_EVERY` exactly when it reaches it and then one row of the picked pattern is appended; the timer stays in `[0, SPAWN_EVERY)` |
| Game.GameState.StepWorld | game.js:280-282 | the player steps, the obstacles advance and are pruned, every remaining obstacle is on an inner lane, and over holds exactly when an obstacle overlaps the player |
| Game.GameState.KeyDown | game.js:293-300 | arrows and A/D set their direction flag; R restarts exactly when the game is over; any other key changes no game field |
| Game.GameState.KeyUp | game.js:302-305 | arrows and A/D clear their direction flag and leave the other flag as it was |
| Game.IsLeftKey | game.js:294 | a left-direction code (left arrow or A) is never a right-direction code and never R |
| Game.IsRightKey | game.js:295 | a right-direction code (right arrow or D) is never a left-direction code and never R |

## Left out

- Rendering is not modelled: the scene, camera, renderer, lights, the player group, `createPlayer`, `createObstacleMesh`, `updateCamera`, `updateHud`, the game-over overlay (`drawGameOver`, `hideGameOver`) and `onResize`. It has no effect on the simulated state.
- Mesh positions and the disposal of geometry and material are not modelled (`mesh.position.set`, `scene.remove`, `dispose`). A mesh is modelled only by its identity.
- `Math.random` in `spawnPatternRow` is the parameter `pick`, any index into the table.
- `performance.now` and `requestAnimationFrame` are left out. The frame length `(now - prev) / 1000` is the parameter `frameSeconds`.
- Game.GameState.Tick: requires `frameSeconds >= 0`. This assumes the browser's clock never runs backwards, either between `performance.now()` at load and the first frame's timestamp or between frames.
- IEEE-754 doubles are modelled as exact reals, so rounding in the accumulated clock, score and spawn timer is not captured.
- Obstacle records are mutated in place in the source (`ob.z += ...`). They are values here, which loses nothing because each record is referenced only from the obstacle list.
- Key events arrive between frames in the browser. They are modelled as separate method calls, with no interleaving inside a frame.
